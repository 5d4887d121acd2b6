/** What the final record of an execution says about its history: the last accepted bindings, every earlier notice,
    and the context it began in. */
module ExecutionProvenance {
  import opened Wrappers
  import opened ExecutionManifests
  import opened ExecutionRuns
  import opened ExecutionTheorems
  import Text

  datatype Kind = Configuration | RunIdentity | Resume | Outputs | Ending | Recovery

  function KindOf(a: Action): Kind {
    match a
    case BindConfiguration(_, _, _, _, _) => Configuration
    case BindRun(_, _, _, _, _, _) => RunIdentity
    case BindResume(_, _, _, _) => Resume
    case BindOutputs(_, _, _, _) => Outputs
    case FinalizeSuccess(_, _, _, _) => Ending
    case FinalizeFailure(_, _, _, _) => Ending
    case Recover(_, _, _, _, _) => Recovery
  }

  /** The last call of a kind that the run completed. */
  function LastAccepted(hash: Hasher, s: State, actions: seq<Action>, kind: Kind): (last: Option<Action>)
    ensures last.Some? ==> KindOf(last.value) == kind
    decreases |actions|
  {
    if actions == [] then None
    else
      var next := Step(hash, s, actions[0]);
      var later := LastAccepted(hash, next.state, actions[1..], kind);
      if later.Some? then later
      else if KindOf(actions[0]) == kind && next.accepted then Some(actions[0])
      else None
  }

  // ---- the bindings ----

  datatype RunFacts = RunFacts(runId: string, inputs: Hashes, splits: Hashes)
  datatype OutputFacts = OutputFacts(logical: Hashes, physical: Hashes, hashManifest: Option<string>)
  datatype SeedFacts = SeedFacts(seed: int, seeds: map<string, int>)

  function RunFactsOf(m: Manifest): RunFacts { RunFacts(m.runId, m.inputTableHashes, m.evaluationSplitLineage) }

  function OutputFactsOf(m: Manifest): OutputFacts {
    OutputFacts(m.outputTableHashes, m.outputTablePhysicalHashes, m.outputHashManifest)
  }

  function SeedFactsOf(m: Manifest): SeedFacts { SeedFacts(m.randomSeed, m.randomSeeds) }

  lemma {:induction false} CandidateBindsRun(hash: Hasher, m: Manifest, a: Action)
    requires !a.Recover?
    ensures var c := Candidate(hash, m, a);
            c.Some? ==>
              RunFactsOf(c.value) == if a.BindRun? then RunFacts(a.runId, a.inputs, a.splits) else RunFactsOf(m)
  {
  }

  lemma {:induction false} StepBindsRun(hash: Hasher, s: State, a: Action)
    ensures var next := Step(hash, s, a);
            RunFactsOf(next.state.manifest)
            == if a.BindRun? && next.accepted then RunFacts(a.runId, a.inputs, a.splits) else RunFactsOf(s.manifest)
  {
    StepTakesCandidate(hash, s, a);
    if !a.Recover? { CandidateBindsRun(hash, s.manifest, a); }
  }

  lemma {:induction false} CandidateBindsOutputs(hash: Hasher, m: Manifest, a: Action)
    requires !a.Recover?
    ensures var c := Candidate(hash, m, a);
            c.Some? ==>
              OutputFactsOf(c.value)
              == if a.BindOutputs? then OutputFacts(a.logical, a.physical, a.hashManifest) else OutputFactsOf(m)
  {
  }

  lemma {:induction false} StepBindsOutputs(hash: Hasher, s: State, a: Action)
    ensures var next := Step(hash, s, a);
            OutputFactsOf(next.state.manifest)
            == if a.BindOutputs? && next.accepted then OutputFacts(a.logical, a.physical, a.hashManifest)
              else OutputFactsOf(s.manifest)
  {
    StepTakesCandidate(hash, s, a);
    if !a.Recover? { CandidateBindsOutputs(hash, s.manifest, a); }
  }

  lemma {:induction false} CandidateBindsSeeds(hash: Hasher, m: Manifest, a: Action)
    requires !a.Recover?
    ensures var c := Candidate(hash, m, a);
            c.Some? ==>
              SeedFactsOf(c.value) == if a.BindConfiguration? then SeedFacts(a.seed, a.seeds) else SeedFactsOf(m)
  {
  }

  lemma {:induction false} StepBindsSeeds(hash: Hasher, s: State, a: Action)
    ensures var next := Step(hash, s, a);
            SeedFactsOf(next.state.manifest)
            == if a.BindConfiguration? && next.accepted then SeedFacts(a.seed, a.seeds) else SeedFactsOf(s.manifest)
  {
    StepTakesCandidate(hash, s, a);
    if !a.Recover? { CandidateBindsSeeds(hash, s.manifest, a); }
  }

  /** Over any run, with any writes and unlinks failing, the record's run, inputs and split lineage are those of the
      last completed `bind_run`, whatever came after it. */
  lemma {:induction false} LastRunSurvives(hash: Hasher, s: State, actions: seq<Action>)
    ensures var last := LastAccepted(hash, s, actions, RunIdentity);
            RunFactsOf(Run(hash, s, actions).manifest)
            == if last.Some? then RunFacts(last.value.runId, last.value.inputs, last.value.splits)
              else RunFactsOf(s.manifest)
    decreases |actions|
  {
    if actions != [] {
      StepBindsRun(hash, s, actions[0]);
      LastRunSurvives(hash, Step(hash, s, actions[0]).state, actions[1..]);
    }
  }

  /** Its output identities are those of the last completed `bind_outputs`. */
  lemma {:induction false} LastOutputsSurvive(hash: Hasher, s: State, actions: seq<Action>)
    ensures var last := LastAccepted(hash, s, actions, Outputs);
            OutputFactsOf(Run(hash, s, actions).manifest)
            == if last.Some? then OutputFacts(last.value.logical, last.value.physical, last.value.hashManifest)
               else OutputFactsOf(s.manifest)
    decreases |actions|
  {
    if actions != [] {
      StepBindsOutputs(hash, s, actions[0]);
      LastOutputsSurvive(hash, Step(hash, s, actions[0]).state, actions[1..]);
    }
  }

  /** And its seeds are those of the last completed `bind_configuration`. */
  lemma {:induction false} LastSeedsSurvive(hash: Hasher, s: State, actions: seq<Action>)
    ensures var last := LastAccepted(hash, s, actions, Configuration);
            SeedFactsOf(Run(hash, s, actions).manifest)
            == if last.Some? then SeedFacts(last.value.seed, last.value.seeds) else SeedFactsOf(s.manifest)
    decreases |actions|
  {
    if actions != [] {
      StepBindsSeeds(hash, s, actions[0]);
      LastSeedsSurvive(hash, Step(hash, s, actions[0]).state, actions[1..]);
    }
  }

  // ---- configuration hashes ----

  /** The second map holds all of the first and, for other keys, what the former one held. */
  predicate Overlaid(incoming: Hashes, former: Hashes, after: Hashes) {
    && after.Keys == former.Keys + incoming.Keys
    && (forall k | k in incoming :: after[k] == incoming[k])
    && (forall k | k in former && k !in incoming :: after[k] == former[k])
  }

  lemma {:induction false} CandidateOverlays(hash: Hasher, m: Manifest, a: Action)
    requires !a.Recover?
    ensures var c := Candidate(hash, m, a);
            c.Some? ==>
              if a.BindConfiguration? then Overlaid(a.hashes, m.configurationHashes, c.value.configurationHashes)
              else c.value.configurationHashes == m.configurationHashes
  {
  }

  lemma {:induction false} StepOverlays(hash: Hasher, s: State, a: Action)
    ensures var next := Step(hash, s, a);
            if a.BindConfiguration? && next.accepted then
              Overlaid(a.hashes, s.manifest.configurationHashes, next.state.manifest.configurationHashes)
            else next.state.manifest.configurationHashes == s.manifest.configurationHashes
  {
    StepTakesCandidate(hash, s, a);
    if !a.Recover? { CandidateOverlays(hash, s.manifest, a); }
  }

  /** The hash a run leaves a configuration name: the last completed binding that names it decides. */
  function BoundHash(hash: Hasher, s: State, actions: seq<Action>, name: string): Option<string>
    decreases |actions|
  {
    if actions == [] then None
    else
      var next := Step(hash, s, actions[0]);
      var later := BoundHash(hash, next.state, actions[1..], name);
      if later.Some? then later
      else if actions[0].BindConfiguration? && next.accepted && name in actions[0].hashes then
        Some(actions[0].hashes[name])
      else None
  }

  function HashOf(hashes: Hashes, name: string): Option<string> { if name in hashes then Some(hashes[name]) else None }

  /** No configuration hash is ever dropped, and each is the one its name was last bound to. */
  lemma {:induction false} ConfigurationHashesAccumulate(hash: Hasher, s: State, actions: seq<Action>, name: string)
    ensures var bound := BoundHash(hash, s, actions, name);
            HashOf(Run(hash, s, actions).manifest.configurationHashes, name)
            == if bound.Some? then bound else HashOf(s.manifest.configurationHashes, name)
    decreases |actions|
  {
    if actions != [] {
      StepOverlays(hash, s, actions[0]);
      ConfigurationHashesAccumulate(hash, Step(hash, s, actions[0]).state, actions[1..], name);
    }
  }

  // ---- the ending ----

  /** What a record says of its end. */
  datatype End = End(status: Status, completedAt: Option<real>, runtime: real, errors: seq<string>)

  function EndOf(m: Manifest): End { End(m.status, m.completedAt, m.runtime, m.errors) }

  /** What the call that ended the record makes it say: the time it was given, the time elapsed but never less than
      none, and for a failure the first 4000 characters of its message after the errors there were. */
  ghost predicate EndsAs(end: End, errors: seq<string>, a: Action) {
    match a
    case FinalizeSuccess(now, elapsed, messages, _) =>
      && end.status == Succeeded && end.completedAt == Some(now) && end.errors == []
      && end.runtime >= elapsed && end.runtime >= 0.0 && (end.runtime == elapsed || end.runtime == 0.0)
    case FinalizeFailure(now, elapsed, message, _) =>
      && end.status == Failed && end.completedAt == Some(now)
      && end.runtime >= elapsed && end.runtime >= 0.0 && (end.runtime == elapsed || end.runtime == 0.0)
      && |end.errors| == |errors| + 1 && errors <= end.errors
      && var kept := end.errors[|errors|];
         kept <= message && (kept == message || |kept| == 4000) && |kept| <= 4000
    case _ => false
  }

  lemma {:induction false} CandidateEnds(hash: Hasher, m: Manifest, a: Action)
    requires !a.Recover?
    ensures var c := Candidate(hash, m, a);
            c.Some? ==>
              if KindOf(a) == Ending then EndsAs(EndOf(c.value), m.errors, a)
              else EndOf(c.value) == EndOf(m)
  {
    match a
    case BindResume(artifacts, manifests, parts, _) =>
      ResumedKeepsEnd(m, LineageUpdate(m.resumeLineage, artifacts, manifests, parts));
    case BindConfiguration(_, _, _, _, _) =>
    case BindRun(_, _, _, _, _, _) =>
    case BindOutputs(_, _, _, _) =>
    case FinalizeSuccess(_, _, _, _) =>
    case FinalizeFailure(_, _, _, _) =>
  }

  lemma {:induction false} ResumedKeepsEnd(m: Manifest, update: Option<ResumeLineage>)
    ensures var c := ResumedBy(m, update); c.Some? ==> EndOf(c.value) == EndOf(m)
  {
  }

  lemma {:induction false} StepEnds(hash: Hasher, s: State, a: Action)
    ensures var next := Step(hash, s, a);
            if KindOf(a) == Ending && next.accepted then
              s.manifest.status.Running? && EndsAs(EndOf(next.state.manifest), s.manifest.errors, a)
            else EndOf(next.state.manifest) == EndOf(s.manifest)
  {
    StepTakesCandidate(hash, s, a);
    if !a.Recover? { CandidateEnds(hash, s.manifest, a); }
    if KindOf(a) == Ending && Step(hash, s, a).accepted { AcceptedWasRunning(hash, s, a); }
  }

  lemma {:induction false} AcceptedWasRunning(hash: Hasher, s: State, a: Action)
    requires Step(hash, s, a).accepted && !a.Recover?
    ensures s.manifest.status.Running?
  {
  }

  lemma {:induction false} NothingEndsTwice(hash: Hasher, s: State, actions: seq<Action>)
    requires !s.manifest.status.Running?
    ensures LastAccepted(hash, s, actions, Ending).None? && EndOf(Run(hash, s, actions).manifest) == EndOf(s.manifest)
    decreases |actions|
  {
    if actions != [] {
      FinalizedStaysOrRecovers(hash, s, actions[0]);
      NothingEndsTwice(hash, Step(hash, s, actions[0]).state, actions[1..]);
    }
  }

  lemma {:induction false} FinalizedStaysOrRecovers(hash: Hasher, s: State, a: Action)
    requires !s.manifest.status.Running?
    ensures Step(hash, s, a).state.manifest == s.manifest && !(KindOf(a) == Ending && Step(hash, s, a).accepted)
  {
    if !a.Recover? { FinalizedStays(hash, s, a); }
  }

  /** Over any run of a running recorder, the status, the time of completion, the runtime and the errors of its record
      are those of the one call that ended it, and those it had when none did. */
  lemma {:induction false} EndingIsRecorded(hash: Hasher, s: State, actions: seq<Action>)
    requires s.manifest.status.Running?
    ensures var last := LastAccepted(hash, s, actions, Ending); var end := EndOf(Run(hash, s, actions).manifest);
            if last.Some? then EndsAs(end, s.manifest.errors, last.value) else end == EndOf(s.manifest)
    decreases |actions|
  {
    if actions != [] {
      var a, next := actions[0], Step(hash, s, actions[0]).state;
      StepEnds(hash, s, a);
      if next.manifest.status.Running? {
        EndingIsRecorded(hash, next, actions[1..]);
      } else {
        NothingEndsTwice(hash, next, actions[1..]);
      }
    }
  }

  // ---- dataset versions ----

  /** The version a run leaves a dataset: the last completed call that says something of it decides, and a
      configuration says something of every dataset. */
  function BoundVersion(hash: Hasher, s: State, actions: seq<Action>, name: string): Option<Option<string>>
    decreases |actions|
  {
    if actions == [] then None
    else
      var a, next := actions[0], Step(hash, s, actions[0]);
      var later := BoundVersion(hash, next.state, actions[1..], name);
      if later.Some? then later
      else if a.BindConfiguration? && next.accepted then
        Some(if name in a.versions then Some(a.versions[name]) else None)
      else if a.BindRun? && next.accepted && name in a.versions then Some(Some(a.versions[name]))
      else None
  }

  function VersionOf(m: Manifest, name: string): Option<string> {
    if name in m.datasetVersions then Some(m.datasetVersions[name]) else None
  }

  /** What one call makes of a dataset's version. */
  function VersionBy(a: Action, name: string, former: Option<string>): Option<string> {
    if a.BindConfiguration? then (if name in a.versions then Some(a.versions[name]) else None)
    else if a.BindRun? && name in a.versions then Some(a.versions[name])
    else former
  }

  lemma {:induction false} CandidateVersions(hash: Hasher, m: Manifest, a: Action, name: string)
    requires !a.Recover?
    ensures var c := Candidate(hash, m, a);
            c.Some? ==> VersionOf(c.value, name) == VersionBy(a, name, VersionOf(m, name))
  {
    match a
    case BindResume(artifacts, manifests, parts, _) =>
      ResumedKeepsVersions(m, LineageUpdate(m.resumeLineage, artifacts, manifests, parts));
    case BindConfiguration(_, _, _, _, _) =>
    case BindRun(_, _, _, _, _, _) =>
    case BindOutputs(_, _, _, _) =>
    case FinalizeSuccess(_, _, _, _) =>
    case FinalizeFailure(_, _, _, _) =>
  }

  lemma {:induction false} ResumedKeepsVersions(m: Manifest, update: Option<ResumeLineage>)
    ensures var c := ResumedBy(m, update); c.Some? ==> c.value.datasetVersions == m.datasetVersions
  {
  }

  lemma {:induction false} StepVersions(hash: Hasher, s: State, a: Action, name: string)
    ensures var next := Step(hash, s, a);
            VersionOf(next.state.manifest, name) ==
            if next.accepted && !a.Recover? then VersionBy(a, name, VersionOf(s.manifest, name))
            else VersionOf(s.manifest, name)
  {
    StepTakesCandidate(hash, s, a);
    if !a.Recover? { CandidateVersions(hash, s.manifest, a, name); }
  }

  /** Every dataset's version is the one it was last bound to. */
  lemma {:induction false} VersionsAccumulate(hash: Hasher, s: State, actions: seq<Action>, name: string)
    ensures var bound := BoundVersion(hash, s, actions, name);
            VersionOf(Run(hash, s, actions).manifest, name)
            == if bound.Some? then bound.value else VersionOf(s.manifest, name)
    decreases |actions|
  {
    if actions != [] {
      StepVersions(hash, s, actions[0], name);
      VersionsAccumulate(hash, Step(hash, s, actions[0]).state, actions[1..], name);
    }
  }

  // ---- notices and context ----

  lemma {:induction false} WithoutDistributes(a: seq<string>, b: seq<string>, message: string)
    ensures Without(a + b, message) == Without(a, message) + Without(b, message)
  {
    if a == [] {
      assert a + b == b;
    } else {
      WithoutDistributes(a[1..], b, message);
      assert (a + b)[1..] == a[1..] + b && (a + b)[0] == a[0];
    }
  }

  lemma {:induction false} WithoutTwice(messages: seq<string>, message: string)
    ensures Without(Without(messages, message), message) == Without(messages, message)
  {
    if messages != [] {
      WithoutTwice(messages[1..], message);
      if messages[0] != message {
        var rest := Without(messages[1..], message);
        assert ([messages[0]] + rest)[1..] == rest;
      }
    }
  }

  lemma {:induction false} CandidateKeepsNotices(hash: Hasher, m: Manifest, a: Action)
    requires !a.Recover?
    ensures var c := Candidate(hash, m, a);
            c.Some? ==>
              && m.limitations <= c.value.limitations
              && if a.BindConfiguration? then c.value.warnings == Without(m.warnings, PENDING)
                else m.warnings <= c.value.warnings
  {
  }

  lemma {:induction false} LongerKeepsOthers(a: seq<string>, b: seq<string>)
    requires a <= b
    ensures Without(a, PENDING) <= Without(b, PENDING)
  {
    WithoutDistributes(a, b[|a|..], PENDING);
    assert b == a + b[|a|..];
  }

  lemma {:induction false} StepKeepsNotices(hash: Hasher, s: State, a: Action)
    ensures var m := Step(hash, s, a).state.manifest;
            && Without(s.manifest.warnings, PENDING) <= Without(m.warnings, PENDING)
            && s.manifest.limitations <= m.limitations
  {
    StepTakesCandidate(hash, s, a);
    var m := Step(hash, s, a).state.manifest;
    if m != s.manifest {
      CandidateKeepsNotices(hash, s.manifest, a);
      if a.BindConfiguration? {
        WithoutTwice(s.manifest.warnings, PENDING);
      } else {
        LongerKeepsOthers(s.manifest.warnings, m.warnings);
      }
    }
  }

  /** Every warning but the pending notice, and every limitation, stays to the end of the run, in its order and in
      front of what is added later. */
  lemma {:induction false} NoticesSurvive(hash: Hasher, s: State, actions: seq<Action>)
    ensures var end := Run(hash, s, actions).manifest;
            && Without(s.manifest.warnings, PENDING) <= Without(end.warnings, PENDING)
            && s.manifest.limitations <= end.limitations
    decreases |actions|
  {
    if actions != [] {
      StepKeepsNotices(hash, s, actions[0]);
      NoticesSurvive(hash, Step(hash, s, actions[0]).state, actions[1..]);
    }
  }

  /** What `begin` captures and no call may rewrite. */
  predicate SameContext(a: Manifest, b: Manifest) {
    && a.executionId == b.executionId && a.timestamp == b.timestamp
    && a.workingTreeStatusHash == b.workingTreeStatusHash && a.sourceTreeHash == b.sourceTreeHash
    && a.dependencyLockHash == b.dependencyLockHash && a.configurationFiles == b.configurationFiles
    && a.datasetManifestPath == b.datasetManifestPath && a.datasetManifestHash == b.datasetManifestHash
    && a.sourceFileHashes == b.sourceFileHashes && a.reproductionCommand == b.reproductionCommand
  }

  lemma {:induction false} CandidateKeepsContext(hash: Hasher, m: Manifest, a: Action)
    requires !a.Recover?
    ensures var c := Candidate(hash, m, a); c.Some? ==> SameContext(m, c.value)
  {
  }

  lemma {:induction false} StepKeepsContext(hash: Hasher, s: State, a: Action)
    ensures SameContext(s.manifest, Step(hash, s, a).state.manifest)
  {
    StepTakesCandidate(hash, s, a);
    if Step(hash, s, a).state.manifest != s.manifest { CandidateKeepsContext(hash, s.manifest, a); }
  }

  /** The context captured at the start is the context of the final record. */
  lemma {:induction false} ContextNeverChanges(hash: Hasher, s: State, actions: seq<Action>)
    ensures SameContext(s.manifest, Run(hash, s, actions).manifest)
    decreases |actions|
  {
    if actions != [] {
      StepKeepsContext(hash, s, actions[0]);
      ContextNeverChanges(hash, Step(hash, s, actions[0]).state, actions[1..]);
    }
  }

  // ---- what a success took ----

  lemma {:induction false} CandidateSettlesLineage(hash: Hasher, m: Manifest, a: Action)
    requires !a.Recover? && !a.BindResume?
    ensures var c := Candidate(hash, m, a); c.Some? ==> c.value.resumeLineage == m.resumeLineage
  {
  }

  lemma {:induction false} StepSettlesLineage(hash: Hasher, s: State, a: Action)
    ensures Step(hash, s, a).state.manifest.resumeLineage.status != s.manifest.resumeLineage.status ==>
              a.BindResume? && Step(hash, s, a).accepted
  {
    StepTakesCandidate(hash, s, a);
    if !a.Recover? && !a.BindResume? { CandidateSettlesLineage(hash, s.manifest, a); }
  }

  lemma {:induction false} ReuseWasAccepted(hash: Hasher, s: State, actions: seq<Action>)
    ensures Run(hash, s, actions).manifest.resumeLineage.status != s.manifest.resumeLineage.status ==>
              LastAccepted(hash, s, actions, Resume).Some?
    decreases |actions|
  {
    if actions != [] {
      StepSettlesLineage(hash, s, actions[0]);
      ReuseWasAccepted(hash, Step(hash, s, actions[0]).state, actions[1..]);
    }
  }

  /** An execution can only succeed after its configuration, its run and its outputs were bound, and, when it was
      to resume, after an authenticated reuse; and its record then holds the last of each. */
  lemma {:induction false} SuccessWasBound(hash: Hasher, files: Files, c: Context, actions: seq<Action>)
    requires FilesAreValid(hash, files) && Begin(hash, files, c, false).Some?
    requires Run(hash, Begin(hash, files, c, false).value, actions).manifest.status.Succeeded?
    ensures var start := Begin(hash, files, c, false).value;
            && LastAccepted(hash, start, actions, Configuration).Some?
            && LastAccepted(hash, start, actions, RunIdentity).Some?
            && LastAccepted(hash, start, actions, Outputs).Some?
            && (c.resumeDirectory.Some? ==> LastAccepted(hash, start, actions, Resume).Some?)
  {
    BeginKeepsInv(hash, files, c, false);
    var start := Begin(hash, files, c, false).value;
    EveryRecordIsValid(hash, start, actions);
    LastRunSurvives(hash, start, actions);
    LastOutputsSurvive(hash, start, actions);
    LastSeedsSurvive(hash, start, actions);
    ReuseWasAccepted(hash, start, actions);
    FreshIsUnbound(hash, c);
    SucceededIsBound(hash, Run(hash, start, actions).manifest);
  }

  lemma {:induction false} FreshIsUnbound(hash: Hasher, c: Context)
    ensures var m := Fresh(hash, c);
            && m.runId == UNRESOLVED_RUN_ID && m.randomSeeds == map[] && m.outputTableHashes == map[]
            && (c.resumeDirectory.Some? ==> m.resumeLineage.status.Requested?)
  {
  }

  lemma {:induction false} SucceededIsBound(hash: Hasher, m: Manifest)
    requires m.Valid(hash) && m.status.Succeeded?
    ensures m.runId != UNRESOLVED_RUN_ID && m.randomSeeds != map[] && m.outputTableHashes != map[]
    ensures !m.resumeLineage.status.Requested?
  {
  }

  /** A recovery never has earlier errors to preserve: a record with errors is a failed one, and refused. */
  lemma {:induction false} RecoveryHasNoErrorsToPreserve(hash: Hasher, files: Files, location: Location, report: string,
                                                         service: string, now: real)
    requires location in files && files[location].status.Running?
    ensures var after := RecoveredFiles(hash, files, location, report, service, now, false);
            after.Some? ==> after.value[location].warnings == files[location].warnings + [RECOVERED + report]
  {
    assert Text.Join([], "; ") == "";
    assert RecoveryWarning(report, []) == RECOVERED + report;
  }

  /** A recovery succeeds the record at the time it was given, never shortening its runtime and covering the time since
      the start; it adds one warning and one limitation behind those there were, and touches nothing else. */
  lemma {:induction false} RecoverySays(hash: Hasher, files: Files, location: Location, report: string, service: string,
                                        now: real)
    requires location in files && files[location].status.Running?
    requires RecoveredFiles(hash, files, location, report, service, now, false).Some?
    ensures var m, after := files[location], RecoveredFiles(hash, files, location, report, service, now, false).value;
            var r := after[location];
            && after == files[location := r] && SameContext(m, r) && r.resumeLineage == m.resumeLineage
            && RunFactsOf(r) == RunFactsOf(m) && OutputFactsOf(r) == OutputFactsOf(m)
            && SeedFactsOf(r) == SeedFactsOf(m)
            && r.datasetVersions == m.datasetVersions && r.configurationHashes == m.configurationHashes
            && r.status == Succeeded && r.completedAt == Some(now) && r.errors == []
            && r.runtime >= m.runtime && r.runtime >= now - m.timestamp && r.runtime >= 0.0
            && (r.runtime == m.runtime || r.runtime == now - m.timestamp || r.runtime == 0.0)
            && m.warnings < r.warnings && |r.warnings| == |m.warnings| + 1
            && m.limitations < r.limitations && |r.limitations| == |m.limitations| + 1
  {
  }

  /** A started recorder has bound nothing yet, and says so before anything else. */
  lemma {:induction false} BeginBindsNothing(hash: Hasher, files: Files, c: Context, writeFails: bool)
    requires Begin(hash, files, c, writeFails).Some?
    ensures var m := Begin(hash, files, c, writeFails).value.manifest;
            && m.executionId == c.executionId && m.timestamp == c.timestamp && m.runId == "unresolved"
            && EndOf(m) == End(Running, None, 0.0, [])
            && m.randomSeed == 0 && m.randomSeeds == map[] && m.datasetVersions == map[] && m.inputTableHashes == map[]
            && m.evaluationSplitLineage == map[]
            && m.outputTableHashes == map[] && m.outputTablePhysicalHashes == map[] && m.outputHashManifest.None?
            && m.configurationFiles == c.configurationFiles && m.configurationHashes == c.configurationHashes
            && m.sourceFileHashes == c.sourceFileHashes && m.reproductionCommand == c.command
            && m.workingTreeStatusHash == c.workingTreeStatusHash && m.sourceTreeHash == c.sourceTreeHash
            && m.dependencyLockHash == c.dependencyLockHash
            && m.datasetManifestPath == c.datasetManifestPath && m.datasetManifestHash == c.datasetManifestHash
            && m.resumeLineage.stagingDirectory == c.resumeDirectory
            && m.resumeLineage.artifactParts == map[] && m.limitations == c.limitations
            && m.warnings
               == ["validated runtime configuration and anchored inputs have not yet been bound"] + c.warnings
  {
  }
}
