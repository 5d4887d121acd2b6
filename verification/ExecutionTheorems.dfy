/** What every run of the execution record keeps, over any sequence of recorder calls and recoveries with any of
    their writes and unlinks failing. */
module ExecutionTheorems {
  import opened Wrappers
  import opened ExecutionManifests
  import opened ExecutionRuns

  /** Every file holds a valid record and lies where that record says. */
  predicate FilesAreValid(hash: Hasher, files: Files) {
    forall l | l in files :: files[l].Valid(hash) && files[l].Identity() == l
  }

  /** What holds between calls. The last clause is what keeps failures final: a failed file at the recorder's path
      is one the recorder itself knows to have failed. */
  predicate Inv(hash: Hasher, s: State) {
    && FilesAreValid(hash, s.files)
    && s.manifest.Valid(hash)
    && s.path == s.manifest.Identity() && s.path in s.files
    && (s.files[s.path].status.Failed? ==> s.manifest.status.Failed?)
  }

  lemma {:induction false} BeginKeepsInv(hash: Hasher, files: Files, c: Context, writeFails: bool)
    requires FilesAreValid(hash, files)
    ensures var begun := Begin(hash, files, c, writeFails);
            begun.Some? ==> Inv(hash, begun.value) && begun.value.manifest.status.Running?
  {
  }

  /** The outcome of a call that rewrites the record in place, or raises and changes nothing. */
  predicate Rewrites(hash: Hasher, s: State, next: Outcome, status: Status) {
    if next.accepted then
      && next.state.manifest.Valid(hash) && next.state.manifest.Identity() == s.path
      && next.state == State(s.files[s.path := next.state.manifest], s.path, next.state.manifest)
      && next.state.manifest.executionId == s.manifest.executionId
      && next.state.manifest.status == status
    else next.state == s
  }

  /** The outcome of a recovery: it touches at most one running record, and makes it a succeeded one. */
  predicate Recovers(hash: Hasher, s: State, next: State, l: Location) {
    && next.path == s.path && next.manifest == s.manifest
    && (next.files == s.files
        || (l in s.files && s.files[l].status.Running? && l in next.files
            && next.files == s.files[l := next.files[l]]
            && next.files[l].Valid(hash) && next.files[l].status.Succeeded? && next.files[l].Identity() == l))
  }

  /** The outcome of a move: it changes nothing, or writes the record at a free path of the same execution, and then
      the old file is gone unless its removal failed. */
  predicate Moves(hash: Hasher, s: State, next: Outcome, moved: Manifest, begins: bool, unlinkFails: bool) {
    if !begins then next == Outcome(s, false)
    else
      && moved.Identity() !in s.files && moved.Valid(hash) && moved.executionId == s.manifest.executionId
      && moved.status.Running?
      && next == if unlinkFails then Outcome(State(s.files[moved.Identity() := moved], s.path, s.manifest), false)
                 else Outcome(State(s.files[moved.Identity() := moved] - {s.path}, moved.Identity(), moved), true)
  }

  function StatusAfter(a: Action): Status {
    if a.FinalizeSuccess? then Succeeded else if a.FinalizeFailure? then Failed else Running
  }

  function MovedBy(s: State, a: Action): Manifest
    requires a.BindRun?
  {
    RunBound(s.manifest, a.runId, a.inputs, a.versions, a.splits)
  }

  /** The call gets as far as removing the old file: the recorder is live, the identifier is safe, the new path is
      free and the new file is written. */
  predicate Relocates(s: State, a: Action) {
    && a.BindRun? && s.manifest.status.Running?
    && IsSafeIdentifier(a.runId) && Location(a.runId, s.manifest.executionId) !in s.files && !a.writeFails
  }

  /** What a call that rewrites the record in place asks of its arguments and of the record as it stands. */
  predicate PassesRecord(m: Manifest, a: Action)
    requires !a.Recover? && !a.BindRun?
  {
    match a
    case BindConfiguration(_, seed, _, _, _) => seed >= 0
    case BindResume(artifacts, manifests, parts, _) => LineageUpdate(m.resumeLineage, artifacts, manifests, parts).Some?
    case BindOutputs(logical, physical, hashManifest, _) => hashManifest.Some? && logical.Keys == physical.Keys
    case FinalizeSuccess(_, _, _, _) => m.ProvenanceIsResolved() && m.DigestsAreSha256()
    case FinalizeFailure(_, _, _, _) => true
  }

  /** What a call of a live recorder asks of its arguments, of the files and of the record as it stands. */
  predicate Passes(s: State, a: Action)
    requires !a.Recover?
  {
    if a.BindRun? then Relocates(s, a) && !a.unlinkFails else PassesRecord(s.manifest, a) && !a.writeFails
  }

  lemma {:induction false} ResumedByKeepsIdentity(m: Manifest, update: Option<ResumeLineage>)
    ensures var c := ResumedBy(m, update);
            c.Some? ==> c.value.Identity() == m.Identity() && c.value.status == m.status
  {
  }

  lemma {:induction false} ResumeKeepsIdentity(hash: Hasher, m: Manifest, a: Action)
    requires a.BindResume?
    ensures var c := Candidate(hash, m, a);
            c.Some? ==> c.value.Identity() == m.Identity() && c.value.status == m.status
  {
    ResumedByKeepsIdentity(m, LineageUpdate(m.resumeLineage, a.artifacts, a.manifests, a.parts));
  }

  /** The record a call sets out to write keeps the execution, and the run unless the call is to bind one. */
  lemma {:induction false} CandidateKeepsIdentity(hash: Hasher, m: Manifest, a: Action)
    requires !a.Recover? && m.status.Running?
    ensures var c := Candidate(hash, m, a);
            c.Some? ==>
              && c.value.executionId == m.executionId && c.value.status == StatusAfter(a)
              && (!a.BindRun? ==> c.value.runId == m.runId)
  {
    match a
    case BindConfiguration(_, _, _, _, _) =>
    case BindRun(_, _, _, _, _, _) =>
    case BindResume(_, _, _, _) => ResumeKeepsIdentity(hash, m, a);
    case BindOutputs(_, _, _, _) =>
    case FinalizeSuccess(_, _, _, _) =>
    case FinalizeFailure(_, _, _, _) =>
  }

  /** Only a live recorder's completed call changes the record in memory, and then to what it set out to write. */
  lemma {:induction false} StepTakesCandidate(hash: Hasher, s: State, a: Action)
    ensures var next := Step(hash, s, a);
            next.state.manifest == s.manifest
            || (next.accepted && s.manifest.status.Running? && !a.Recover?
              && Candidate(hash, s.manifest, a) == Some(next.state.manifest))
    ensures var next := Step(hash, s, a);
            next.accepted && !a.Recover? ==> Candidate(hash, s.manifest, a) == Some(next.state.manifest)
  {
  }

  lemma {:induction false} CallRewrites(hash: Hasher, s: State, a: Action)
    requires s.manifest.status.Running? && !a.Recover? && !a.BindRun?
    ensures Rewrites(hash, s, Step(hash, s, a), StatusAfter(a))
  {
    CandidateKeepsIdentity(hash, s.manifest, a);
    var c := Candidate(hash, s.manifest, a);
    if c.Some? { PersistRewrites(hash, s, c.value, a.writeFails); }
  }

  lemma {:induction false} PersistRewrites(hash: Hasher, s: State, manifest: Manifest, fails: bool)
    requires manifest.executionId == s.manifest.executionId
    ensures Rewrites(hash, s, Persist(hash, s, manifest, fails), manifest.status)
  {
  }

  lemma {:induction false} RecoveryRecovers(hash: Hasher, s: State, a: Action)
    requires a.Recover?
    ensures Recovers(hash, s, Step(hash, s, a).state, a.location)
  {
    var next := Step(hash, s, a).state;
    if next.files != s.files {
      assert s.files[a.location].Identity() == a.location;
    }
  }

  lemma {:induction false} RunMoves(hash: Hasher, s: State, a: Action)
    requires Inv(hash, s) && a.BindRun? && s.manifest.status.Running?
    ensures Moves(hash, s, Step(hash, s, a), MovedBy(s, a), Relocates(s, a), a.unlinkFails)
  {
  }

  lemma {:induction false} FinalizedStays(hash: Hasher, s: State, a: Action)
    requires !s.manifest.status.Running? && !a.Recover?
    ensures Step(hash, s, a) == Outcome(s, false)
  {
  }

  lemma {:induction false} RewriteKeepsInv(hash: Hasher, s: State, next: Outcome, status: Status)
    requires Inv(hash, s) && Rewrites(hash, s, next, status)
    ensures Inv(hash, next.state)
  {
  }

  lemma {:induction false} RecoveryKeepsInv(hash: Hasher, s: State, next: State, l: Location)
    requires Inv(hash, s) && Recovers(hash, s, next, l)
    ensures Inv(hash, next)
  {
  }

  lemma {:induction false} MoveKeepsInv(hash: Hasher, s: State, next: Outcome, moved: Manifest, begins: bool,
                                        unlinkFails: bool)
    requires Inv(hash, s) && Moves(hash, s, next, moved, begins, unlinkFails)
    ensures Inv(hash, next.state)
  {
  }

  /** Any call or recovery, completed or not, keeps the invariant. */
  lemma {:induction false} StepKeepsInv(hash: Hasher, s: State, a: Action)
    requires Inv(hash, s)
    ensures Inv(hash, Step(hash, s, a).state)
  {
    if a.Recover? {
      RecoveryRecovers(hash, s, a);
      RecoveryKeepsInv(hash, s, Step(hash, s, a).state, a.location);
    } else if !s.manifest.status.Running? {
      FinalizedStays(hash, s, a);
    } else if a.BindRun? {
      RunMoves(hash, s, a);
      MoveKeepsInv(hash, s, Step(hash, s, a), MovedBy(s, a), Relocates(s, a), a.unlinkFails);
    } else {
      CallRewrites(hash, s, a);
      RewriteKeepsInv(hash, s, Step(hash, s, a), StatusAfter(a));
    }
  }

  // ---- which calls complete ----

  lemma {:induction false} PersistAcceptedExactlyWhen(hash: Hasher, s: State, manifest: Manifest, fails: bool)
    requires manifest.Identity() == s.path
    ensures Persist(hash, s, manifest, fails).accepted <==> manifest.Valid(hash) && !fails
  {
  }

  lemma {:induction false} ConfiguredIsValid(hash: Hasher, m: Manifest, hashes: Hashes, seed: int,
                                             seeds: map<string, int>, versions: map<string, string>)
    requires m.Valid(hash) && m.status.Running?
    ensures Configured(hash, m, hashes, seed, seeds, versions).Valid(hash) <==> seed >= 0
  {
  }

  lemma {:induction false} ResumedIsValid(hash: Hasher, m: Manifest, lineage: ResumeLineage)
    requires m.Valid(hash) && m.status.Running? && lineage.Valid()
    ensures Resumed(m, lineage).Valid(hash)
  {
  }

  lemma {:induction false} UpdateIsValid(current: ResumeLineage, artifacts: Hashes, manifests: Hashes, parts: Hashes)
    ensures var update := LineageUpdate(current, artifacts, manifests, parts); update.Some? ==> update.value.Valid()
  {
  }

  lemma {:induction false} OutputsAreValid(hash: Hasher, m: Manifest, logical: Hashes, physical: Hashes,
                                           digest: Option<string>)
    requires m.Valid(hash) && m.status.Running?
    ensures WithOutputs(m, logical, physical, digest).Valid(hash) <==> logical.Keys == physical.Keys
  {
  }

  lemma {:induction false} FinishedIsValid(hash: Hasher, m: Manifest, now: real, elapsed: real, messages: seq<string>)
    requires m.Valid(hash)
    ensures Finished(m, now, elapsed, messages).Valid(hash) <==> m.ProvenanceIsResolved() && m.DigestsAreSha256()
  {
  }

  lemma {:induction false} BrokenIsValid(hash: Hasher, m: Manifest, now: real, elapsed: real, message: string)
    requires m.Valid(hash)
    ensures Broken(m, now, elapsed, message).Valid(hash)
  {
  }

  /** What makes the record a call sets out to write a valid one. */
  lemma {:induction false} CandidateIsValidExactlyWhen(hash: Hasher, m: Manifest, a: Action)
    requires m.Valid(hash) && m.status.Running? && !a.Recover? && !a.BindRun?
    ensures var c := Candidate(hash, m, a); c.Some? && c.value.Valid(hash) <==> PassesRecord(m, a)
  {
    match a
    case BindConfiguration(hashes, seed, seeds, versions, _) =>
      ConfiguredIsValid(hash, m, hashes, seed, seeds, versions);
    case BindResume(artifacts, manifests, parts, _) =>
      var lineage := LineageUpdate(m.resumeLineage, artifacts, manifests, parts);
      UpdateIsValid(m.resumeLineage, artifacts, manifests, parts);
      if lineage.Some? { ResumedIsValid(hash, m, lineage.value); }
    case BindOutputs(logical, physical, digest, _) =>
      OutputsAreValid(hash, m, logical, physical, digest);
    case FinalizeSuccess(now, elapsed, messages, _) =>
      FinishedIsValid(hash, m, now, elapsed, messages);
    case FinalizeFailure(now, elapsed, message, _) =>
      BrokenIsValid(hash, m, now, elapsed, message);
  }

  /** A live recorder's call completes exactly when its arguments, the files and the record pass, and nothing it
      writes or removes fails: conditions a caller can check beforehand. */
  lemma {:induction false} CallAcceptedExactlyWhen(hash: Hasher, s: State, a: Action)
    requires Inv(hash, s) && s.manifest.status.Running? && !a.Recover?
    ensures Step(hash, s, a).accepted <==> Passes(s, a)
  {
    if a.BindRun? {
      RunMoves(hash, s, a);
    } else {
      CandidateKeepsIdentity(hash, s.manifest, a);
      CandidateIsValidExactlyWhen(hash, s.manifest, a);
      var c := Candidate(hash, s.manifest, a);
      if c.Some? { PersistAcceptedExactlyWhen(hash, s, c.value, a.writeFails); }
    }
  }

  /** Every record on disk or in memory meets its validators after any run, and its configuration digest is the
      digest of its configuration hashes. */
  lemma {:induction false} EveryRecordIsValid(hash: Hasher, s: State, actions: seq<Action>)
    requires Inv(hash, s)
    ensures Inv(hash, Run(hash, s, actions))
    ensures forall l | l in Run(hash, s, actions).files ::
              Run(hash, s, actions).files[l].configHash == hash(Run(hash, s, actions).files[l].configurationHashes)
    decreases |actions|
  {
    if actions != [] {
      StepKeepsInv(hash, s, actions[0]);
      EveryRecordIsValid(hash, Step(hash, s, actions[0]).state, actions[1..]);
    }
  }

  ghost predicate AllDigests(hashes: Hashes) { forall k | k in hashes :: IsSha256(hashes[k]) }

  /** What every record on disk says of itself after any run: where it lies, that its configured files are hashed and
      its output tables hashed both ways, and how status, completion and errors go together. */
  lemma {:induction false} EveryRecordSays(hash: Hasher, s: State, actions: seq<Action>, l: Location)
    requires Inv(hash, s) && l in Run(hash, s, actions).files
    ensures var m := Run(hash, s, actions).files[l];
            && m.runId == l.runId && m.executionId == l.executionId
            && IsSafeIdentifier(m.runId) && IsSafeIdentifier(m.executionId)
            && m.randomSeed >= 0 && m.runtime >= 0.0 && AllDigests(m.sourceFileHashes)
            && m.configurationFiles.Keys <= m.configurationHashes.Keys
            && m.outputTableHashes.Keys == m.outputTablePhysicalHashes.Keys
            && (m.status == Running <==> m.completedAt.None?)
            && (m.status == Failed <==> m.errors != [])
  {
    EveryRecordIsValid(hash, s, actions);
  }

  /** A record that says it succeeded names its run, seeds, versions, sources, configuration, inputs and outputs, and
      every digest it carries is one. */
  lemma {:induction false} SuccessSays(hash: Hasher, s: State, actions: seq<Action>, l: Location)
    requires Inv(hash, s) && l in Run(hash, s, actions).files && Run(hash, s, actions).files[l].status == Succeeded
    ensures var m := Run(hash, s, actions).files[l];
            && m.runId != "unresolved" && m.randomSeeds != map[] && m.datasetVersions != map[]
            && m.datasetManifestPath.Some? && m.sourceFileHashes != map[]
            && m.configurationFiles != map[] && m.configurationHashes != map[]
            && m.inputTableHashes != map[] && m.outputTableHashes != map[] && m.outputTablePhysicalHashes != map[]
            && IsSha256(m.dependencyLockHash) && IsSha256(m.configHash)
            && IsSha256(m.sourceTreeHash) && IsSha256(m.workingTreeStatusHash)
            && m.datasetManifestHash.Some? && IsSha256(m.datasetManifestHash.value)
            && m.outputHashManifest.Some? && IsSha256(m.outputHashManifest.value)
            && AllDigests(m.configurationHashes) && AllDigests(m.inputTableHashes)
            && AllDigests(m.outputTableHashes) && AllDigests(m.outputTablePhysicalHashes)
            && AllDigests(m.evaluationSplitLineage)
            && m.resumeLineage.status != Requested
  {
    EveryRecordIsValid(hash, s, actions);
  }

  /** What every record says of resuming: nothing without a staging directory; a directory but no digest while the reuse
      is only requested; at least one artifact part once it happened; and only confined paths and true digests. */
  lemma {:induction false} LineageSays(hash: Hasher, s: State, actions: seq<Action>, l: Location)
    requires Inv(hash, s) && l in Run(hash, s, actions).files
    ensures var r := Run(hash, s, actions).files[l].resumeLineage;
            && (r.status == NotRequested <==> r.stagingDirectory.None?)
            && (r.stagingDirectory.Some? ==> IsConfinedPath(r.stagingDirectory.value))
            && (r.status == ValidatedAndReused <==> r.recoveredComposite)
            && (r.status == ValidatedAndReused <==> r.artifactParts != map[])
            && (r.status != ValidatedAndReused ==> r.checkpointManifests == map[] && r.checkpointParts == map[])
            && (forall path | path in r.artifactParts :: IsConfinedPath(path) && IsSha256(r.artifactParts[path]))
            && (forall path | path in r.checkpointManifests ::
                  IsConfinedPath(path) && IsSha256(r.checkpointManifests[path]))
            && (forall path | path in r.checkpointParts :: IsConfinedPath(path) && IsSha256(r.checkpointParts[path]))
  {
    EveryRecordIsValid(hash, s, actions);
  }

  /** The in-memory status moves once at most, from running to succeeded or failed, and a finalized recorder
      changes nothing any more. */
  lemma {:induction false} StatusMovesOnce(hash: Hasher, s: State, actions: seq<Action>)
    requires !s.manifest.status.Running?
    ensures Run(hash, s, actions).manifest == s.manifest && Run(hash, s, actions).path == s.path
    decreases |actions|
  {
    if actions != [] {
      StatusMovesOnce(hash, Step(hash, s, actions[0]).state, actions[1..]);
    }
  }

  // ---- how many files an execution has ----

  /** The files that carry the recorder's execution id. */
  function OwnFiles(s: State): set<Location> {
    Own(s.files, s.manifest.executionId)
  }

  function Own(files: Files, executionId: string): set<Location> {
    set l | l in files && l.executionId == executionId
  }

  /** The call wrote the record at its new path and then failed to remove the old file. */
  predicate LeavesStray(s: State, a: Action) {
    Relocates(s, a) && a.unlinkFails
  }

  function Strays(hash: Hasher, s: State, actions: seq<Action>): nat
    decreases |actions|
  {
    if actions == [] then 0
    else (if LeavesStray(s, actions[0]) then 1 else 0) + Strays(hash, Step(hash, s, actions[0]).state, actions[1..])
  }

  lemma {:induction false} MoveCountsFiles(files: Files, executionId: string, former: Location, moved: Location,
                                           manifest: Manifest)
    requires former in files && moved !in files && former.executionId == moved.executionId == executionId
    ensures |Own(files[moved := manifest], executionId)| == |Own(files, executionId)| + 1
    ensures |Own(files[moved := manifest] - {former}, executionId)| == |Own(files, executionId)|
  {
    var own := Own(files, executionId);
    assert Own(files[moved := manifest], executionId) == own + {moved};
    assert Own(files[moved := manifest] - {former}, executionId) == own + {moved} - {former};
  }

  lemma {:induction false} SameKeysSameFiles(files: Files, after: Files, executionId: string)
    requires files.Keys == after.Keys
    ensures Own(files, executionId) == Own(after, executionId)
  {
    assert forall l :: l in files <==> l in after;
  }

  lemma {:induction false} StepCountsFiles(hash: Hasher, s: State, a: Action)
    requires Inv(hash, s)
    ensures Step(hash, s, a).state.manifest.executionId == s.manifest.executionId
    ensures |OwnFiles(Step(hash, s, a).state)| == |OwnFiles(s)| + if LeavesStray(s, a) then 1 else 0
  {
    if a.Recover? {
      RecoveryRecovers(hash, s, a);
      SameKeysSameFiles(s.files, Step(hash, s, a).state.files, s.manifest.executionId);
    } else if !s.manifest.status.Running? {
      FinalizedStays(hash, s, a);
    } else if a.BindRun? {
      RunMoves(hash, s, a);
      if Relocates(s, a) {
        var moved := MovedBy(s, a);
        MoveCountsFiles(s.files, s.manifest.executionId, s.path, moved.Identity(), moved);
      }
    } else {
      CallRewrites(hash, s, a);
      SameKeysSameFiles(s.files, Step(hash, s, a).state.files, s.manifest.executionId);
    }
  }

  /** An execution has one file more for every failed removal, over any run. */
  lemma {:induction false} FilesAreCounted(hash: Hasher, s: State, actions: seq<Action>)
    requires Inv(hash, s)
    ensures |OwnFiles(Run(hash, s, actions))| == |OwnFiles(s)| + Strays(hash, s, actions)
    decreases |actions|
  {
    if actions != [] {
      StepKeepsInv(hash, s, actions[0]);
      StepCountsFiles(hash, s, actions[0]);
      FilesAreCounted(hash, Step(hash, s, actions[0]).state, actions[1..]);
    }
  }

  lemma {:induction false} SingletonIs<T>(s: set<T>, x: T)
    requires x in s
    ensures |s| == 1 <==> s == {x}
  {
    assert |s - {x}| == |s| - 1;
    assert s == s - {x} + {x};
  }

  /** From an execution that no file carries yet: its only file is the one at its run and execution path, exactly
      when no removal failed. */
  lemma {:induction false} OneFileExactlyWhenNoStray(hash: Hasher, files: Files, c: Context, actions: seq<Action>)
    requires FilesAreValid(hash, files) && Begin(hash, files, c, false).Some?
    requires forall l | l in files :: l.executionId != c.executionId
    ensures var start := Begin(hash, files, c, false).value; var end := Run(hash, start, actions);
            (OwnFiles(end) == {end.manifest.Identity()}) <==> Strays(hash, start, actions) == 0
  {
    BeginKeepsInv(hash, files, c, false);
    var start := Begin(hash, files, c, false).value;
    assert OwnFiles(start) == {start.path};
    FilesAreCounted(hash, start, actions);
    EveryRecordIsValid(hash, start, actions);
    var end := Run(hash, start, actions);
    SingletonIs(OwnFiles(end), end.path);
  }
}
