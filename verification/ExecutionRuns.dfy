/** The life of an execution record as a state machine: what each recorder call and each recovery does to the
    files on disk, the recorder's path and its in-memory record, with failing writes and unlinks as part of the
    call. */
module ExecutionRuns {
  import opened Wrappers
  import opened ExecutionManifests
  import Text

  const PENDING: string := "validated runtime configuration and anchored inputs have not yet been bound"

  const COMPOSITE: string :=
    "this execution recovered validated artifacts from interrupted staging; "
    + "it is a composite completion, not an independent fresh run"

  const RECOVERED: string :=
    "execution success provenance was finalized from a durable post-COMMIT promotion journal "
    + "after strict validation and a successful service result "

  const PRESERVED: string := "; preserved pre-recovery errors: "

  const RECOVERED_LIMITATION: string :=
    "the worker was interrupted or failed after its atomic DuckDB exposure; "
    + "success was recovered from the transaction marker and strict validation"

  type Files = map<Location, Manifest>

  datatype State = State(files: Files, path: Location, manifest: Manifest)

  /** A call either returns or raises; both leave a state. */
  datatype Outcome = Outcome(state: State, accepted: bool)

  datatype Action =
    | BindConfiguration(hashes: Hashes, seed: int, seeds: map<string, int>, versions: map<string, string>,
                        writeFails: bool)
    | BindRun(runId: string, inputs: Hashes, versions: map<string, string>, splits: Hashes,
              writeFails: bool, unlinkFails: bool)
    | BindResume(artifacts: Hashes, manifests: Hashes, parts: Hashes, writeFails: bool)
    | BindOutputs(logical: Hashes, physical: Hashes, hashManifest: Option<string>, writeFails: bool)
    | FinalizeSuccess(now: real, elapsed: real, messages: seq<string>, writeFails: bool)
    | FinalizeFailure(now: real, elapsed: real, message: string, writeFails: bool)
    | Recover(location: Location, report: string, service: string, now: real, writeFails: bool)

  function Max(x: real, y: real): real { if x < y then y else x }

  function Without(messages: seq<string>, message: string): seq<string> {
    if messages == [] then []
    else if messages[0] == message then Without(messages[1..], message)
    else [messages[0]] + Without(messages[1..], message)
  }

  /** `_persist`: nothing changes unless the record validates and its file is written. */
  function Persist(hash: Hasher, s: State, manifest: Manifest, writeFails: bool): Outcome {
    if !manifest.Valid(hash) || s.path != manifest.Identity() || writeFails then Outcome(s, false)
    else Outcome(State(s.files[s.path := manifest], s.path, manifest), true)
  }

  function Configured(hash: Hasher, m: Manifest, hashes: Hashes, seed: int, seeds: map<string, int>,
                      versions: map<string, string>): Manifest {
    m.(configurationHashes := m.configurationHashes + hashes, configHash := hash(m.configurationHashes + hashes),
       randomSeed := seed, randomSeeds := seeds, datasetVersions := versions, warnings := Without(m.warnings, PENDING))
  }

  function RunBound(m: Manifest, runId: string, inputs: Hashes, versions: map<string, string>, splits: Hashes)
      : Manifest {
    m.(runId := runId, datasetVersions := m.datasetVersions + versions, inputTableHashes := inputs,
       evaluationSplitLineage := splits)
  }

  /** Move the record to its run: write it at the new path, remove it at the old one, then follow. */
  function RunMoved(s: State, manifest: Manifest, unlinkFails: bool): Outcome {
    var files := s.files[manifest.Identity() := manifest];
    if s.path in files && unlinkFails then Outcome(State(files, s.path, s.manifest), false)
    else Outcome(State(files - {s.path}, manifest.Identity(), manifest), true)
  }

  /** `bind_run`, once the record to be written is known. */
  function Move(hash: Hasher, s: State, manifest: Manifest, writeFails: bool, unlinkFails: bool): Outcome {
    if !manifest.Valid(hash) || manifest.Identity() in s.files || writeFails then Outcome(s, false)
    else RunMoved(s, manifest, unlinkFails)
  }

  predicate Agree(existing: Hashes, incoming: Hashes) {
    forall path | path in incoming && path in existing :: existing[path] == incoming[path]
  }

  /** The lineage an update would leave, or nothing when it is malformed, empty, conflicting or without news. */
  function LineageUpdate(current: ResumeLineage, artifacts: Hashes, manifests: Hashes, parts: Hashes)
      : Option<ResumeLineage> {
    if current.status.NotRequested? then None
    else if !(IsInventory(artifacts) && IsInventory(manifests) && IsInventory(parts)) then None
    else if artifacts == map[] && manifests == map[] && parts == map[] then None
    else if !(Agree(current.artifactParts, artifacts) && Agree(current.checkpointManifests, manifests)
              && Agree(current.checkpointParts, parts)) then None
    else if artifacts.Keys <= current.artifactParts.Keys && manifests.Keys <= current.checkpointManifests.Keys
            && parts.Keys <= current.checkpointParts.Keys then None
    else
      var lineage := ResumeLineage(current.stagingDirectory, ValidatedAndReused, true,
                                   current.artifactParts + artifacts, current.checkpointManifests + manifests,
                                   current.checkpointParts + parts);
      if lineage.Valid() then Some(lineage) else None
  }

  function Resumed(m: Manifest, lineage: ResumeLineage): Manifest {
    var note := if m.resumeLineage.status.Requested? then [COMPOSITE] else [];
    m.(resumeLineage := lineage, warnings := m.warnings + note, limitations := m.limitations + note)
  }

  function ResumedBy(m: Manifest, update: Option<ResumeLineage>): Option<Manifest> {
    match update
    case None => None
    case Some(lineage) => Some(Resumed(m, lineage))
  }

  function WithOutputs(m: Manifest, logical: Hashes, physical: Hashes, hashManifest: Option<string>): Manifest {
    m.(outputTableHashes := logical, outputTablePhysicalHashes := physical, outputHashManifest := hashManifest)
  }

  function Finished(m: Manifest, now: real, elapsed: real, messages: seq<string>): Manifest {
    m.(status := Succeeded, completedAt := Some(now), runtime := Max(0.0, elapsed),
       warnings := m.warnings + messages, errors := [])
  }

  function Broken(m: Manifest, now: real, elapsed: real, message: string): Manifest {
    var kept := if |message| <= 4000 then message else message[..4000];
    m.(status := Failed, completedAt := Some(now), runtime := Max(0.0, elapsed), errors := m.errors + [kept])
  }

  function RecoveryWarning(report: string, errors: seq<string>): string {
    var prior := Text.Join(errors, "; ");
    RECOVERED + report + if prior == "" then "" else PRESERVED + (if |prior| <= 3000 then prior else prior[..3000])
  }

  function Recovered(m: Manifest, report: string, now: real): Manifest {
    m.(status := Succeeded, completedAt := Some(now), runtime := Max(m.runtime, Max(0.0, now - m.timestamp)),
       warnings := m.warnings + [RecoveryWarning(report, m.errors)], errors := [],
       limitations := m.limitations + [RECOVERED_LIMITATION])
  }

  /** `finalize_recovered_execution_success` works on a file, not on a recorder. */
  function RecoveredFiles(hash: Hasher, files: Files, location: Location, report: string, service: string, now: real,
                          writeFails: bool): Option<Files> {
    if !IsSha256(report) || service != "success" || location !in files then None
    else if !files[location].Valid(hash) || files[location].Identity() != location then None
    else match files[location].status
      case Succeeded => Some(files)
      case Failed => None
      case Running =>
        var manifest := Recovered(files[location], report, now);
        if manifest.Valid(hash) && !writeFails then Some(files[location := manifest]) else None
  }

  /** The record a call of a live recorder sets out to write, unless its arguments are refused outright. */
  function Candidate(hash: Hasher, m: Manifest, a: Action): Option<Manifest>
    requires !a.Recover?
  {
    match a
    case BindConfiguration(hashes, seed, seeds, versions, _) => Some(Configured(hash, m, hashes, seed, seeds, versions))
    case BindRun(runId, inputs, versions, splits, _, _) =>
      if IsSafeIdentifier(runId) then Some(RunBound(m, runId, inputs, versions, splits)) else None
    case BindResume(artifacts, manifests, parts, _) =>
      ResumedBy(m, LineageUpdate(m.resumeLineage, artifacts, manifests, parts))
    case BindOutputs(logical, physical, hashManifest, _) =>
      if hashManifest.None? then None else Some(WithOutputs(m, logical, physical, hashManifest))
    case FinalizeSuccess(now, elapsed, messages, _) => Some(Finished(m, now, elapsed, messages))
    case FinalizeFailure(now, elapsed, message, _) => Some(Broken(m, now, elapsed, message))
  }

  function StepRunning(hash: Hasher, s: State, a: Action): Outcome
    requires !a.Recover?
  {
    match Candidate(hash, s.manifest, a)
    case None => Outcome(s, false)
    case Some(manifest) =>
      if a.BindRun? then Move(hash, s, manifest, a.writeFails, a.unlinkFails)
      else Persist(hash, s, manifest, a.writeFails)
  }

  function Step(hash: Hasher, s: State, a: Action): Outcome {
    match a
    case Recover(location, report, service, now, writeFails) => (
      match RecoveredFiles(hash, s.files, location, report, service, now, writeFails)
      case None => Outcome(s, false)
      case Some(files) => Outcome(s.(files := files), true))
    case _ =>
      if !s.manifest.status.Running? then Outcome(s, false) else StepRunning(hash, s, a)
  }

  function Run(hash: Hasher, s: State, actions: seq<Action>): State
    decreases |actions|
  {
    if actions == [] then s else Run(hash, Step(hash, s, actions[0]).state, actions[1..])
  }

  /** What `begin` has learnt before it builds the first record. */
  datatype Context = Context(
    executionId: string, timestamp: real,
    workingTreeStatusHash: string, sourceTreeHash: string, dependencyLockHash: string,
    configurationFiles: map<string, string>, configurationHashes: Hashes, datasetManifestPath: Option<string>,
    datasetManifestHash: Option<string>, sourceFileHashes: Hashes, resumeDirectory: Option<string>,
    command: seq<string>, warnings: seq<string>, limitations: seq<string>)

  function FreshLineage(resumeDirectory: Option<string>): ResumeLineage {
    var status := if resumeDirectory.None? then NotRequested else Requested;
    ResumeLineage(resumeDirectory, status, false, map[], map[], map[])
  }

  function Fresh(hash: Hasher, c: Context): Manifest {
    Manifest(c.executionId, Running, UNRESOLVED_RUN_ID, c.timestamp, None,
             c.workingTreeStatusHash, c.sourceTreeHash, c.dependencyLockHash,
             hash(c.configurationHashes), c.configurationFiles, c.configurationHashes,
             c.datasetManifestPath, c.datasetManifestHash, c.sourceFileHashes,
             map[], 0, map[], map[], map[], map[], None, map[], 0.0, FreshLineage(c.resumeDirectory), c.command,
             [PENDING] + c.warnings, [], c.limitations)
  }

  /** `begin`: a recorder exists only once its first record is on disk, at a path that was free. */
  function Begin(hash: Hasher, files: Files, c: Context, writeFails: bool): Option<State> {
    var manifest := Fresh(hash, c);
    if !manifest.Valid(hash) || manifest.Identity() in files || writeFails then None
    else Some(State(files[manifest.Identity() := manifest], manifest.Identity(), manifest))
  }
}
