/**
 Each durable step of the bridge keeps the invariant. One lemma per kind of step;
 `d` is the disk before it and the written-out update is the disk after it.
 */
module BridgeSteps {
  import opened Wrappers
  import opened BridgeTypes
  import opened BridgeNames
  import opened BridgeRules
  import opened BridgeInvariant

  lemma CleanIsSound(e: Env, d: Disk)
    requires CleanControls(d)
    ensures Inv(e, d)
  {}

  // ----- steps on the configuration -----

  /** The config stages that the journal on the disk allows. */
  predicate StagesAllowed(journal: Option<Node>, manifest: Option<Node>, keys: set<StageName>) {
    match JournalOn(journal)
    case Some(BootstrapJournal(_, _, _, stage)) => keys <= {stage}
    case Some(RestoreJournal(_, _, _, _, stage, backup, _)) =>
      && ManifestOn(manifest).Some?
      && keys <= {if Capture(ManifestOn(manifest).value.active.state).Absent? then backup else stage}
    case _ => false
  }

  /** The configuration, its directory and the bytes of an allowed config stage are free. */
  lemma ConfigIsFree(e: Env, d: Disk, c: Option<Node>, stages: map<StageName, Node>, a: AbsenceRecord)
    requires Inv(e, d)
    requires stages == d.configStages || StagesAllowed(d.journal, d.manifest, stages.Keys)
    ensures Inv(e, d.(config := c, configStages := stages, etcHowy := a))
  {
    var d' := d.(config := c, configStages := stages, etcHowy := a);
    assert JournalOn(d'.journal) == JournalOn(d.journal) && ManifestOn(d'.manifest) == ManifestOn(d.manifest);
    assert MarkerOn(d'.marker) == MarkerOn(d.marker);
    assert ManifestSound(e, d');
    assert MarkerSound(e, d');
    assert JournalSound(e, d') by {
      if d.journal.Some? {
        var j := JournalOn(d.journal).value;
        if !j.BootstrapJournal? {
          assert ManifestPhase(e, d', j) by { assert ManifestPhase(e, d, j); }
        }
      }
    }
  }

  lemma ConfigStageDropped(e: Env, d: Disk, name: StageName)
    requires Inv(e, d)
    ensures Inv(e, d.(configStages := d.configStages - {name}))
  {
    var d' := d.(configStages := d.configStages - {name});
    assert ManifestSound(e, d') && MarkerSound(e, d');
    assert JournalSound(e, d') by {
      if d.journal.Some? && !JournalOn(d.journal).value.BootstrapJournal? {
        assert ManifestPhase(e, d', JournalOn(d.journal).value) by {
          assert ManifestPhase(e, d, JournalOn(d.journal).value);
        }
      }
    }
  }

  // ----- steps on the manifest -----

  lemma NextIsChronicle(existing: Option<StashManifest>, t: TransactionId, source: ConfigState, n: StashManifest)
    requires existing.Some? ==> Chronicle(existing.value)
    requires ValidTransactionId(t) && ValidConfigState(source)
    requires NextManifest(existing, t, source) == Done(n)
    ensures Chronicle(n)
    ensures n.active.generation == (if existing.None? then 0 else existing.value.active.generation) + 1
    ensures n.active.stashTransactionId == t
    ensures n.active.state == CaptureState(source, n.active.generation)
  {
    CaptureIsValid(source, n.active.generation);
    if existing.Some? {
      var m := existing.value;
      ConsumedInPlace(m.active, t, n.consumed[|m.consumed|], |m.consumed| + 1);
      hide ValidTransactionId, ValidHistoryEntry, EntryInPlace, ValidCaptured, OwnPath;
      forall i | 0 <= i < |n.consumed| ensures EntryInPlace(n.consumed[i], i + 1) && ValidHistoryEntry(n.consumed[i]) {
        if i < |m.consumed| { assert n.consumed[i] == m.consumed[i]; }
      }
      HistoryOrdered(n.consumed, n.active.generation);
    }
  }

  lemma CaptureIsValid(source: ConfigState, generation: nat)
    requires ValidConfigState(source) && generation > 0
    ensures ValidCaptured(CaptureState(source, generation)) && OwnPath(CaptureState(source, generation), generation)
  {}

  lemma ConsumedInPlace(a: GenerationRecord, t: TransactionId, g: GenerationRecord, generation: nat)
    requires ConsumeRestored(a, t) == Done(g) && ValidActive(a.state) && OwnPath(Capture(a.state), generation)
    requires a.generation == generation && ValidTransactionId(t) && ValidTransactionId(a.stashTransactionId)
    ensures EntryInPlace(g, generation) && ValidHistoryEntry(g)
  {}

  lemma HistoryOrdered(gs: seq<GenerationRecord>, limit: nat)
    requires limit == |gs| + 1 && forall i :: 0 <= i < |gs| ==> EntryInPlace(gs[i], i + 1)
    ensures OrderedBelow(gs, limit)
  {
    forall i | 0 <= i < |gs| ensures gs[i].generation == i + 1 {
      assert EntryInPlace(gs[i], i + 1);
    }
  }

  lemma RestoredIsChronicle(m: StashManifest, target: ConfigState, t: TransactionId)
    requires Chronicle(m) && Unrestored(m.active.state)
    requires ValidConfigState(target) && ValidTransactionId(t)
    ensures Chronicle(RestoredManifest(m, target, t))
  {}

  /** What may follow the manifest of a sound disk is itself a generation history. */
  lemma SuccessorIsChronicle(e: Env, d: Disk, j: Journal, m: StashManifest, n: StashManifest)
    requires Inv(e, d) && JournalOn(d.journal) == Some(j) && !j.BootstrapJournal?
    requires ManifestOn(d.manifest) == Some(m) && Successor(j, m, n)
    ensures Chronicle(n) && Committed(j, n)
    ensures j.RestoreJournal? ==> Capture(n.active.state) == Capture(m.active.state) == m.active.state
    ensures j.RestoreJournal? ==> n.active.generation == m.active.generation
  {
    if j.RestoreJournal? {
      RestoredIsChronicle(m, n.active.state.restoredTarget, j.transactionId);
    }
  }

  lemma ManifestStaged(e: Env, d: Disk, j: Journal, m: StashManifest, n: Node)
    requires Inv(e, d) && JournalOn(d.journal) == Some(j) && !j.BootstrapJournal?
    requires ManifestOn(d.manifest) == Some(m) && !Committed(j, m)
    requires StagesSuccessor(e, Some(n), j, m)
    ensures Inv(e, d.(controlStages := d.controlStages[j.manifestStage := n]))
  {
    hide Chronicle, StagesSuccessor, Held, ValidMarker, ValidJournal, StashMatches, IsObject, NextManifest;
    var d' := d.(controlStages := d.controlStages[j.manifestStage := n]);
    assert ManifestPhase(e, d, j);
    assert ManifestPhase(e, d', j);
    assert ManifestSound(e, d') && MarkerSound(e, d');
    assert JournalSound(e, d');
  }

  lemma ManifestExchanged(e: Env, d: Disk, j: Journal, m: StashManifest, staged: Node)
    requires Inv(e, d) && JournalOn(d.journal) == Some(j) && !j.BootstrapJournal?
    requires ManifestOn(d.manifest) == Some(m) && !Committed(j, m)
    requires At(d.controlStages, j.manifestStage) == Some(staged)
    requires StashKept(e, d.stashes, Capture(ManifestOn(Some(staged)).value.active.state))
    ensures Inv(e, d.(manifest := Some(staged),
                      controlStages := d.controlStages[j.manifestStage := d.manifest.value]))
  {
    var d' := d.(manifest := Some(staged), controlStages := d.controlStages[j.manifestStage := d.manifest.value]);
    var n := ManifestOn(Some(staged)).value;
    assert ManifestPhase(e, d, j);
    SuccessorIsChronicle(e, d, j, m, n);
    assert ManifestOn(d'.manifest) == Some(n);
    assert ManifestPhase(e, d', j);
    assert ManifestSound(e, d');
    assert MarkerSound(e, d');
    assert JournalSound(e, d');
  }

  lemma ManifestPublished(e: Env, d: Disk, j: Journal, n: Node)
    requires Inv(e, d) && JournalOn(d.journal) == Some(j) && j.StashJournal?
    requires d.manifest.None?
    requires Held(e, Some(n), ManifestText(j.newManifest, 0))
    requires StashKept(e, d.stashes, j.newManifest.active.state)
    ensures Inv(e, d.(manifest := Some(n)))
  {
    var d' := d.(manifest := Some(n));
    assert ManifestPhase(e, d', j) by { assert ManifestPhase(e, d, j); }
    assert ManifestSound(e, d') && MarkerSound(e, d');
    assert JournalSound(e, d');
  }

  lemma BackupDropped(e: Env, d: Disk, j: Journal, m: StashManifest)
    requires Inv(e, d) && JournalOn(d.journal) == Some(j) && !j.BootstrapJournal?
    requires ManifestOn(d.manifest) == Some(m) && Committed(j, m)
    ensures Inv(e, d.(controlStages := d.controlStages - {j.manifestStage}))
  {
    var d' := d.(controlStages := d.controlStages - {j.manifestStage});
    assert ManifestPhase(e, d', j) by { assert ManifestPhase(e, d, j); }
    assert ManifestSound(e, d') && MarkerSound(e, d');
    assert JournalSound(e, d');
  }

  lemma StashPublished(e: Env, d: Disk, j: Journal, path: string, n: Node)
    requires Inv(e, d) && JournalOn(d.journal) == Some(j) && j.StashJournal?
    requires j.newManifest.active.state.PresentStashed? && path == j.newManifest.active.state.stashPath
    requires path !in d.stashes
    requires StashMatches(e, d.stashes[path := n], j.newManifest.active.state)
    ensures Inv(e, d.(stashes := d.stashes[path := n]))
  {
    hide Chronicle, ValidMarker, ValidJournal, IsObject, NextManifest, Held;
    var d' := d.(stashes := d.stashes[path := n]);
    assert ManifestSound(e, d');
    assert MarkerSound(e, d');
    assert JournalSound(e, d') by {
      assert ManifestPhase(e, d', j) by { assert ManifestPhase(e, d, j); }
    }
    forall g: nat | g > LastGeneration(d') ensures StashPath(g) !in d'.stashes {
      if StashPath(g) == path {
        StashPathInjective(g, j.newManifest.active.generation);
      }
    }
  }

  // ----- steps on the marker -----

  lemma MarkerDropped(e: Env, d: Disk)
    requires Inv(e, d)
    ensures Inv(e, d.(marker := None))
  {
    var d' := d.(marker := None);
    assert ManifestSound(e, d');
    assert JournalSound(e, d') by {
      if d.journal.Some? && !JournalOn(d.journal).value.BootstrapJournal? {
        assert ManifestPhase(e, d', JournalOn(d.journal).value) by {
          assert ManifestPhase(e, d, JournalOn(d.journal).value);
        }
      }
    }
  }

  lemma MarkerPublished(e: Env, d: Disk, k: BootstrapMarker, n: Node)
    requires Inv(e, d) && d.journal.None?
    requires Held(e, Some(n), MarkerText(k, 0)) && ValidMarker(k) && MarkerBound(d, k)
    ensures Inv(e, d.(marker := Some(n)))
  {
    var d' := d.(marker := Some(n));
    assert ManifestSound(e, d') && MarkerSound(e, d') && JournalSound(e, d');
  }

  // ----- steps on the journal -----

  /** The journaled operation has nothing left to do on the controls. */
  predicate Finished(d: Disk, j: Journal) {
    && d.configStages == map[]
    && d.controlStages == map[]
    && d.marker.None?
    && (j.BootstrapJournal? || (ManifestOn(d.manifest).Some? && Committed(j, ManifestOn(d.manifest).value)))
  }

  lemma JournalDropped(e: Env, d: Disk, j: Journal)
    requires Inv(e, d) && JournalOn(d.journal) == Some(j) && Finished(d, j)
    ensures Inv(e, d.(journal := None))
  {
    var d' := d.(journal := None);
    assert ManifestSound(e, d') && JournalSound(e, d');
    assert LastGeneration(d') == LastGeneration(d);
  }

  lemma BootstrapJournaled(e: Env, d: Disk, j: Journal, n: Node)
    requires Inv(e, d) && d.journal.None? && d.manifest.None? && d.marker.None?
    requires j.BootstrapJournal? && ValidJournal(j) && Held(e, Some(n), JournalText(j, 0))
    ensures Inv(e, d.(journal := Some(n)))
  {
    var d' := d.(journal := Some(n));
    assert ManifestSound(e, d') && JournalSound(e, d');
  }

  lemma StashJournaled(e: Env, d: Disk, j: Journal, n: Node)
    requires Inv(e, d) && d.journal.None?
    requires j.StashJournal? && ValidJournal(j) && Held(e, Some(n), JournalText(j, 0))
    requires NextManifest(ManifestOn(d.manifest), j.transactionId, j.source) == Done(j.newManifest)
    requires d.manifest.None? <==> j.previousManifest.None?
    requires d.manifest.Some? ==> j.previousManifest == Some(RecordOf(d.manifest.value))
    requires d.marker.Some? ==> j.marker == Some(RecordOf(d.marker.value))
    ensures Inv(e, d.(journal := Some(n)))
  {
    var d' := d.(journal := Some(n));
    NextIsChronicle(ManifestOn(d.manifest), j.transactionId, j.source, j.newManifest);
    assert j.newManifest.active.generation == LastGeneration(d) + 1;
    assert ManifestOn(d'.manifest) == ManifestOn(d.manifest);
    assert ManifestSound(e, d');
    assert MarkerSound(e, d');
    assert ManifestPhase(e, d', j);
    assert JournalSound(e, d');
  }

  lemma RestoreJournaled(e: Env, d: Disk, j: Journal, n: Node)
    requires Inv(e, d) && d.journal.None? && d.marker.None? && ManifestOn(d.manifest).Some?
    requires j.RestoreJournal? && ValidJournal(j) && Held(e, Some(n), JournalText(j, 0))
    requires Unrestored(ManifestOn(d.manifest).value.active.state)
    requires j.manifest == RecordOf(d.manifest.value)
    requires j.generation == ManifestOn(d.manifest).value.active.generation
    ensures Inv(e, d.(journal := Some(n)))
  {
    var d' := d.(journal := Some(n));
    assert ManifestSound(e, d') && MarkerSound(e, d');
    assert ManifestPhase(e, d', j);
    assert JournalSound(e, d');
  }

  // ----- the history along a run -----

  lemma SuccessorExtends(j: Journal, m: StashManifest, n: StashManifest)
    requires !j.BootstrapJournal? && Successor(j, m, n)
    ensures Extends(m, n)
  {}

  lemma ExtendsTransitive(k: StashManifest, m: StashManifest, n: StashManifest)
    requires Extends(k, m) && Extends(m, n)
    ensures Extends(k, n)
  {
    if |m.consumed| > |k.consumed| {
      assert n.consumed[|k.consumed|] == m.consumed[|k.consumed|];
    }
  }

  lemma HistoryKeptTransitive(a: Option<Node>, b: Option<Node>, c: Option<Node>)
    requires HistoryKept(a, b) && HistoryKept(b, c)
    ensures HistoryKept(a, c)
  {
    if ManifestOn(a).Some? {
      ExtendsTransitive(ManifestOn(a).value, ManifestOn(b).value, ManifestOn(c).value);
    }
  }
}
