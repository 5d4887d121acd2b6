/** The execution-attempt record of src/echoes/manifest.py and the validators it must pass whenever it is built.
    The digest of a named hash map is a parameter: any function from maps to strings. */
module ExecutionManifests {
  import opened Wrappers
  import Text
  import ReproductionCommands

  type Hashes = map<string, string>
  type Hasher = Hashes -> string

  const UNRESOLVED_RUN_ID: string := "unresolved"

  predicate IsSha256(s: string) {
    |s| == 64 && forall i :: 0 <= i < |s| ==> '0' <= s[i] <= '9' || 'a' <= s[i] <= 'f'
  }

  predicate AllSha256(hashes: Hashes) {
    forall k | k in hashes :: IsSha256(hashes[k])
  }

  predicate IsPlain(c: char) {
    Text.IsLetter(c) || Text.IsDigit(c)
  }

  /** `^[A-Za-z0-9][A-Za-z0-9._-]{0,127}$` */
  predicate IsSafeIdentifier(s: string) {
    && 1 <= |s| <= 128 && IsPlain(s[0])
    && forall i :: 0 <= i < |s| ==> IsPlain(s[i]) || s[i] in "._-"
  }

  /** A nonempty POSIX path, relative also for Windows, in which no component is empty, `.` or `..`. */
  predicate IsConfinedPath(s: string) {
    && s != "" && '\\' !in s
    && !(|s| >= 2 && s[1] == ':')
    && forall part | part in Text.Split(s, '/') :: part != "" && part != "." && part != ".."
  }

  predicate IsInventory(hashes: Hashes) {
    forall path | path in hashes :: IsConfinedPath(path) && IsSha256(hashes[path])
  }

  datatype LineageStatus = NotRequested | Requested | ValidatedAndReused

  datatype ResumeLineage = ResumeLineage(
    stagingDirectory: Option<string>,
    status: LineageStatus,
    recoveredComposite: bool,
    artifactParts: Hashes,
    checkpointManifests: Hashes,
    checkpointParts: Hashes)
  {
    predicate Empty() {
      artifactParts == map[] && checkpointManifests == map[] && checkpointParts == map[]
    }

    predicate Valid() {
      && IsInventory(artifactParts) && IsInventory(checkpointManifests) && IsInventory(checkpointParts)
      && (stagingDirectory.Some? ==> IsConfinedPath(stagingDirectory.value))
      && match status
         case NotRequested => stagingDirectory.None? && !recoveredComposite && Empty()
         case Requested => stagingDirectory.Some? && !recoveredComposite && Empty()
         case ValidatedAndReused => stagingDirectory.Some? && recoveredComposite && artifactParts != map[]
    }
  }

  datatype Status = Running | Succeeded | Failed

  /** `manifest_root / run_id / f"{execution_id}.json"` */
  datatype Location = Location(runId: string, executionId: string)

  datatype Manifest = Manifest(
    executionId: string,
    status: Status,
    runId: string,
    timestamp: real,
    completedAt: Option<real>,
    workingTreeStatusHash: string,
    sourceTreeHash: string,
    dependencyLockHash: string,
    configHash: string,
    configurationFiles: map<string, string>,
    configurationHashes: Hashes,
    datasetManifestPath: Option<string>,
    datasetManifestHash: Option<string>,
    sourceFileHashes: Hashes,
    datasetVersions: map<string, string>,
    randomSeed: int,
    randomSeeds: map<string, int>,
    inputTableHashes: Hashes,
    outputTableHashes: Hashes,
    outputTablePhysicalHashes: Hashes,
    outputHashManifest: Option<string>,
    evaluationSplitLineage: Hashes,
    runtime: real,
    resumeLineage: ResumeLineage,
    reproductionCommand: seq<string>,
    warnings: seq<string>,
    errors: seq<string>,
    limitations: seq<string>)
  {
    function Identity(): Location { Location(runId, executionId) }

    /** The checks on single fields. */
    predicate FieldsAreValid() {
      && IsSafeIdentifier(executionId) && IsSafeIdentifier(runId)
      && AllSha256(sourceFileHashes)
      && randomSeed >= 0 && runtime >= 0.0
      && ReproductionCommands.IsBounded(reproductionCommand)
      && resumeLineage.Valid()
    }

    predicate ProvenanceIsResolved() {
      && runId != UNRESOLVED_RUN_ID
      && randomSeeds != map[] && datasetVersions != map[]
      && datasetManifestPath.Some? && sourceFileHashes != map[]
      && configurationFiles != map[] && configurationHashes != map[]
      && !resumeLineage.status.Requested?
      && inputTableHashes != map[] && outputTableHashes != map[] && outputTablePhysicalHashes != map[]
    }

    predicate DigestsAreSha256() {
      && IsSha256(dependencyLockHash) && IsSha256(configHash)
      && datasetManifestHash.Some? && IsSha256(datasetManifestHash.value)
      && outputHashManifest.Some? && IsSha256(outputHashManifest.value)
      && IsSha256(sourceTreeHash) && IsSha256(workingTreeStatusHash)
      && AllSha256(configurationHashes) && AllSha256(sourceFileHashes) && AllSha256(inputTableHashes)
      && AllSha256(outputTableHashes) && AllSha256(outputTablePhysicalHashes) && AllSha256(evaluationSplitLineage)
      && AllSha256(resumeLineage.artifactParts) && AllSha256(resumeLineage.checkpointManifests)
      && AllSha256(resumeLineage.checkpointParts)
    }

    /** `completion_state_is_truthful` */
    predicate CompletionIsTruthful() {
      match status
      case Running => completedAt.None? && errors == []
      case Failed => completedAt.Some? && errors != []
      case Succeeded => completedAt.Some? && errors == [] && ProvenanceIsResolved() && DigestsAreSha256()
    }

    predicate Valid(hash: Hasher) {
      && FieldsAreValid()
      && configHash == hash(configurationHashes)
      && configurationFiles.Keys <= configurationHashes.Keys
      && outputTableHashes.Keys == outputTablePhysicalHashes.Keys
      && CompletionIsTruthful()
    }
  }
}
