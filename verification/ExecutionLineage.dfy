/** The authenticated reuse facts of an execution: over any run they only grow, refused updates leave no mark, and
    the composite notice is stated once. */
module ExecutionLineage {
  import opened Wrappers
  import opened ExecutionManifests
  import opened ExecutionRuns
  import opened ExecutionTheorems

  /** Every digest of the first is kept, unchanged, in the second. */
  predicate Kept(before: Hashes, after: Hashes) {
    forall path | path in before :: path in after && after[path] == before[path]
  }

  predicate Grows(before: ResumeLineage, after: ResumeLineage) {
    && after.stagingDirectory == before.stagingDirectory
    && Kept(before.artifactParts, after.artifactParts)
    && Kept(before.checkpointManifests, after.checkpointManifests)
    && Kept(before.checkpointParts, after.checkpointParts)
  }

  lemma {:induction false} UpdateGrows(current: ResumeLineage, artifacts: Hashes, manifests: Hashes, parts: Hashes)
    ensures var update := LineageUpdate(current, artifacts, manifests, parts);
            update.Some? ==>
              Grows(current, update.value)
              && Kept(artifacts, update.value.artifactParts) && Kept(manifests, update.value.checkpointManifests)
              && Kept(parts, update.value.checkpointParts)
              && update.value != current
  {
    AdditionsShow(current.artifactParts, artifacts);
    AdditionsShow(current.checkpointManifests, manifests);
    AdditionsShow(current.checkpointParts, parts);
  }

  lemma {:induction false} CandidateGrowsLineage(hash: Hasher, m: Manifest, a: Action)
    requires !a.Recover?
    ensures var c := Candidate(hash, m, a); c.Some? ==> Grows(m.resumeLineage, c.value.resumeLineage)
  {
    if a.BindResume? {
      UpdateGrows(m.resumeLineage, a.artifacts, a.manifests, a.parts);
    }
  }

  lemma {:induction false} StepGrowsLineage(hash: Hasher, s: State, a: Action)
    ensures Grows(s.manifest.resumeLineage, Step(hash, s, a).state.manifest.resumeLineage)
  {
    StepTakesCandidate(hash, s, a);
    if Step(hash, s, a).state.manifest != s.manifest { CandidateGrowsLineage(hash, s.manifest, a); }
  }

  /** No recorded resume digest is ever changed or dropped. */
  lemma {:induction false} LineageOnlyGrows(hash: Hasher, s: State, actions: seq<Action>)
    ensures Grows(s.manifest.resumeLineage, Run(hash, s, actions).manifest.resumeLineage)
    decreases |actions|
  {
    if actions != [] {
      StepGrowsLineage(hash, s, actions[0]);
      LineageOnlyGrows(hash, Step(hash, s, actions[0]).state, actions[1..]);
    }
  }

  /** A call that raises leaves memory, path and files as they were, except for the file a failed removal leaves. */
  lemma {:induction false} RejectedCallsChangeNothing(hash: Hasher, s: State, a: Action)
    requires Inv(hash, s) && !Step(hash, s, a).accepted
    ensures Step(hash, s, a).state.manifest == s.manifest && Step(hash, s, a).state.path == s.path
    ensures (Step(hash, s, a).state == s) <==> !LeavesStray(s, a)
  {
    if a.Recover? || !s.manifest.status.Running? {
    } else if a.BindRun? {
      RunMoves(hash, s, a);
    } else {
      CallRewrites(hash, s, a);
    }
  }

  /** An update is refused exactly when none was requested, a digest is malformed, or it conflicts with what is
      recorded, brings no file that is not already recorded, or leaves no artifact part recorded. */
  lemma {:induction false} UpdateAcceptedExactlyWhen(current: ResumeLineage, artifacts: Hashes, manifests: Hashes,
                                                     parts: Hashes)
    requires current.Valid()
    ensures LineageUpdate(current, artifacts, manifests, parts).Some? <==>
              && current.stagingDirectory.Some?
              && IsInventory(artifacts) && IsInventory(manifests) && IsInventory(parts)
              && Kept(current.artifactParts, current.artifactParts + artifacts)
              && Kept(current.checkpointManifests, current.checkpointManifests + manifests)
              && Kept(current.checkpointParts, current.checkpointParts + parts)
              && (current.artifactParts + artifacts != current.artifactParts
                  || current.checkpointManifests + manifests != current.checkpointManifests
                  || current.checkpointParts + parts != current.checkpointParts)
              && current.artifactParts + artifacts != map[]
  {
    AdditionsShow(current.artifactParts, artifacts);
    AdditionsShow(current.checkpointManifests, manifests);
    AdditionsShow(current.checkpointParts, parts);
  }

  /** Merging agrees exactly when it overwrites nothing, and adds nothing exactly when it then changes nothing. */
  lemma {:induction false} AdditionsShow(existing: Hashes, incoming: Hashes)
    ensures Agree(existing, incoming) <==> Kept(existing, existing + incoming)
    ensures Agree(existing, incoming) ==> (incoming.Keys <= existing.Keys <==> existing + incoming == existing)
    ensures IsInventory(existing) && IsInventory(incoming) ==> IsInventory(existing + incoming)
  {
    if Kept(existing, existing + incoming) {
      forall path | path in incoming && path in existing
        ensures existing[path] == incoming[path]
      {
        assert (existing + incoming)[path] == existing[path];
      }
    }
    if existing + incoming == existing {
      assert forall path | path in incoming :: path in existing + incoming;
    }
    if Agree(existing, incoming) && incoming.Keys <= existing.Keys {
      assert (existing + incoming).Keys == existing.Keys;
    }
  }

  lemma {:induction false} WithoutKeepsOthers(messages: seq<string>, message: string, other: string)
    requires message != other
    ensures multiset(Without(messages, message))[other] == multiset(messages)[other]
  {
    if messages != [] {
      WithoutKeepsOthers(messages[1..], message, other);
      assert messages == [messages[0]] + messages[1..];
    }
  }

  /** How often the composite notice is due. */
  function NoticeDue(m: Manifest): nat { if m.resumeLineage.status.ValidatedAndReused? then 1 else 0 }

  predicate NoticeStated(m: Manifest) {
    && multiset(m.limitations)[COMPOSITE] == NoticeDue(m)
    && (m.status.Running? ==> multiset(m.warnings)[COMPOSITE] == NoticeDue(m))
  }

  /** A fresh record states no composite notice, as long as what `begin` found out about the lock file, the sources,
      the configuration and the working tree does not happen to read like one. */
  lemma {:induction false} BeginStatesNotice(hash: Hasher, files: Files, c: Context, writeFails: bool)
    requires COMPOSITE !in c.warnings && COMPOSITE !in c.limitations
    ensures var begun := Begin(hash, files, c, writeFails); begun.Some? ==> NoticeStated(begun.value.manifest)
  {
    assert PENDING != COMPOSITE;
    assert COMPOSITE !in multiset(c.warnings) && COMPOSITE !in multiset(c.limitations);
  }

  lemma {:induction false} UpdateReuses(current: ResumeLineage, artifacts: Hashes, manifests: Hashes, parts: Hashes)
    ensures var update := LineageUpdate(current, artifacts, manifests, parts);
            update.Some? ==> !current.status.NotRequested? && update.value.status.ValidatedAndReused?
  {
  }

  lemma {:induction false} ResumedStatesNotice(m: Manifest, update: Option<ResumeLineage>)
    requires m.status.Running? && NoticeStated(m)
    requires update.Some? ==> !m.resumeLineage.status.NotRequested? && update.value.status.ValidatedAndReused?
    ensures var c := ResumedBy(m, update); c.Some? ==> NoticeStated(c.value)
  {
  }

  lemma {:induction false} CandidateStatesNotice(hash: Hasher, m: Manifest, a: Action)
    requires !a.Recover? && m.status.Running? && NoticeStated(m)
    ensures var c := Candidate(hash, m, a); c.Some? ==> NoticeStated(c.value)
  {
    if a.BindResume? {
      UpdateReuses(m.resumeLineage, a.artifacts, a.manifests, a.parts);
      ResumedStatesNotice(m, LineageUpdate(m.resumeLineage, a.artifacts, a.manifests, a.parts));
    } else if a.BindConfiguration? {
      WithoutKeepsOthers(m.warnings, PENDING, COMPOSITE);
    }
  }

  lemma {:induction false} StepStatesNotice(hash: Hasher, s: State, a: Action)
    requires NoticeStated(s.manifest)
    ensures NoticeStated(Step(hash, s, a).state.manifest)
  {
    StepTakesCandidate(hash, s, a);
    if Step(hash, s, a).state.manifest != s.manifest { CandidateStatesNotice(hash, s.manifest, a); }
  }

  /** The composite notice stands exactly once among the limitations, and while running among the warnings, from
      the first accepted lineage update on, and never before. */
  lemma {:induction false} NoticeIsStatedOnce(hash: Hasher, s: State, actions: seq<Action>)
    requires NoticeStated(s.manifest)
    ensures NoticeStated(Run(hash, s, actions).manifest)
    decreases |actions|
  {
    if actions != [] {
      StepStatesNotice(hash, s, actions[0]);
      NoticeIsStatedOnce(hash, Step(hash, s, actions[0]).state, actions[1..]);
    }
  }

  /** Over every run of a fresh recorder, the composite notice stands exactly once from the first accepted lineage
      update on, and before that not at all. */
  lemma {:induction false} NoticeFollowsReuse(hash: Hasher, files: Files, c: Context, actions: seq<Action>)
    requires Begin(hash, files, c, false).Some? && COMPOSITE !in c.warnings && COMPOSITE !in c.limitations
    ensures var end := Run(hash, Begin(hash, files, c, false).value, actions).manifest;
            && multiset(end.limitations)[COMPOSITE] == NoticeDue(end)
            && (end.status.Running? ==> multiset(end.warnings)[COMPOSITE] == NoticeDue(end))
  {
    BeginStatesNotice(hash, files, c, false);
    NoticeIsStatedOnce(hash, Begin(hash, files, c, false).value, actions);
  }
}
