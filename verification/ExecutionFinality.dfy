/** Once a record has failed or succeeded: for how long, and against whom, it stays so. */
module ExecutionFinality {
  import opened Wrappers
  import opened ExecutionManifests
  import opened ExecutionRuns
  import opened ExecutionTheorems

  // ---- failures ----

  /** No single call or recovery touches a failed record. */
  lemma {:induction false} FailedStepIsKept(hash: Hasher, s: State, a: Action, l: Location)
    requires Inv(hash, s) && l in s.files && s.files[l].status.Failed?
    ensures l in Step(hash, s, a).state.files && Step(hash, s, a).state.files[l] == s.files[l]
  {
    if a.Recover? {
      RecoveryRecovers(hash, s, a);
    } else if !s.manifest.status.Running? {
      FinalizedStays(hash, s, a);
    } else {
      assert l != s.path;
      LiveCallSparesOthers(hash, s, a, l);
    }
  }

  /** A live recorder's call touches no record but the one at its own path. */
  lemma {:induction false} LiveCallSparesOthers(hash: Hasher, s: State, a: Action, l: Location)
    requires Inv(hash, s) && s.manifest.status.Running? && !a.Recover? && l in s.files && l != s.path
    ensures l in Step(hash, s, a).state.files && Step(hash, s, a).state.files[l] == s.files[l]
  {
    if a.BindRun? {
      RunMoves(hash, s, a);
      MoveSparesOthers(hash, s, Step(hash, s, a), MovedBy(s, a), Relocates(s, a), a.unlinkFails, l);
    } else {
      CallRewrites(hash, s, a);
    }
  }

  lemma {:induction false} MoveSparesOthers(hash: Hasher, s: State, next: Outcome, moved: Manifest, begins: bool,
                                            unlinkFails: bool, l: Location)
    requires Moves(hash, s, next, moved, begins, unlinkFails) && l in s.files && l != s.path
    ensures l in next.state.files && next.state.files[l] == s.files[l]
  {
  }

  /** A failed record stays on disk, unchanged, through every later call and recovery. */
  lemma {:induction false} FailedRecordsAreFinal(hash: Hasher, s: State, actions: seq<Action>, l: Location)
    requires Inv(hash, s) && l in s.files && s.files[l].status.Failed?
    ensures l in Run(hash, s, actions).files && Run(hash, s, actions).files[l] == s.files[l]
    decreases |actions|
  {
    if actions != [] {
      StepKeepsInv(hash, s, actions[0]);
      FailedStepIsKept(hash, s, actions[0], l);
      FailedRecordsAreFinal(hash, Step(hash, s, actions[0]).state, actions[1..], l);
    }
  }

  // ---- successes ----

  predicate HasSucceeded(files: Files, l: Location) { l in files && files[l].status.Succeeded? }

  /** The recorder still believes that the record at this place, by now recovered as succeeded, is its own running
      one, and makes a call that passes without declaring success. */
  predicate Reclassifies(s: State, a: Action, l: Location) {
    l == s.path && s.manifest.status.Running? && !a.Recover? && !a.FinalizeSuccess? && Passes(s, a)
  }

  /** A succeeded record is lost in a step exactly when such a call is made: the recorder never reads its file back,
      and the condition is one on the state before the call. */
  lemma {:induction false} SucceededIsLostExactlyWhen(hash: Hasher, s: State, a: Action, l: Location)
    requires Inv(hash, s) && HasSucceeded(s.files, l)
    ensures HasSucceeded(Step(hash, s, a).state.files, l) <==> !Reclassifies(s, a, l)
  {
    if a.Recover? {
      RecoveryRecovers(hash, s, a);
    } else if !s.manifest.status.Running? {
      FinalizedStays(hash, s, a);
    } else if l != s.path {
      LiveCallSparesOthers(hash, s, a, l);
    } else {
      CallAcceptedExactlyWhen(hash, s, a);
      LiveCallOnOwnRecord(hash, s, a);
    }
  }

  lemma {:induction false} LiveCallOnOwnRecord(hash: Hasher, s: State, a: Action)
    requires Inv(hash, s) && HasSucceeded(s.files, s.path) && s.manifest.status.Running? && !a.Recover?
    ensures HasSucceeded(Step(hash, s, a).state.files, s.path) <==> !Step(hash, s, a).accepted || a.FinalizeSuccess?
  {
    if a.BindRun? {
      RunMoves(hash, s, a);
      MoveTakesOwnRecord(hash, s, Step(hash, s, a), MovedBy(s, a), Relocates(s, a), a.unlinkFails);
    } else {
      CallRewrites(hash, s, a);
    }
  }

  lemma {:induction false} MoveTakesOwnRecord(hash: Hasher, s: State, next: Outcome, moved: Manifest, begins: bool,
                                              unlinkFails: bool)
    requires Moves(hash, s, next, moved, begins, unlinkFails) && s.path in s.files
    ensures if next.accepted then s.path !in next.state.files
            else s.path in next.state.files && next.state.files[s.path] == s.files[s.path]
  {
  }

  // ---- both, over whole runs ----

  /** The record on disk at the recorder's path is the one in memory. */
  predicate Coherent(s: State) { s.path in s.files && s.files[s.path] == s.manifest }

  lemma {:induction false} BeginIsCoherent(hash: Hasher, files: Files, c: Context, writeFails: bool)
    ensures var begun := Begin(hash, files, c, writeFails); begun.Some? ==> Coherent(begun.value)
  {
  }

  /** No recovery of the run is pointed at the path of the recorder while that is still live. */
  predicate RecoveriesSpareLive(hash: Hasher, s: State, actions: seq<Action>)
    decreases |actions|
  {
    actions != [] ==>
      SparesLive(s, actions[0]) && RecoveriesSpareLive(hash, Step(hash, s, actions[0]).state, actions[1..])
  }

  predicate SparesLive(s: State, a: Action) {
    a.Recover? && s.manifest.status.Running? ==> a.location != s.path
  }

  lemma {:induction false} StepKeepsDisk(hash: Hasher, s: State, a: Action)
    requires Inv(hash, s) && Coherent(s) && SparesLive(s, a)
    ensures Coherent(Step(hash, s, a).state)
  {
    if a.Recover? {
      RecoveryRecovers(hash, s, a);
    } else if !s.manifest.status.Running? {
      FinalizedStays(hash, s, a);
    } else if a.BindRun? {
      RunMoves(hash, s, a);
      MoveKeepsDisk(hash, s, Step(hash, s, a), MovedBy(s, a), Relocates(s, a), a.unlinkFails);
    } else {
      CallRewrites(hash, s, a);
    }
  }

  lemma {:induction false} MoveKeepsDisk(hash: Hasher, s: State, next: Outcome, moved: Manifest, begins: bool,
                                         unlinkFails: bool)
    requires Moves(hash, s, next, moved, begins, unlinkFails) && Coherent(s)
    ensures Coherent(next.state)
  {
  }

  /** While recoveries spare the live recorder, the record on disk at its path is the one in memory. */
  lemma {:induction false} MemoryIsOnDisk(hash: Hasher, s: State, actions: seq<Action>)
    requires Inv(hash, s) && Coherent(s) && RecoveriesSpareLive(hash, s, actions)
    ensures Coherent(Run(hash, s, actions))
    decreases |actions|
  {
    if actions != [] {
      StepKeepsInv(hash, s, actions[0]);
      StepKeepsDisk(hash, s, actions[0]);
      MemoryIsOnDisk(hash, Step(hash, s, actions[0]).state, actions[1..]);
    }
  }

  /** The record has reached an end and lies at the place. */
  predicate IsFinal(files: Files, l: Location) { l in files && !files[l].status.Running? }

  lemma {:induction false} FinalStepIsKept(hash: Hasher, s: State, a: Action, l: Location)
    requires Inv(hash, s) && Coherent(s) && IsFinal(s.files, l)
    ensures IsFinal(Step(hash, s, a).state.files, l) && Step(hash, s, a).state.files[l] == s.files[l]
  {
    if a.Recover? {
      RecoveryRecovers(hash, s, a);
    } else if !s.manifest.status.Running? {
      FinalizedStays(hash, s, a);
    } else {
      LiveCallSparesOthers(hash, s, a, l);
    }
  }

  /** While recoveries spare the live recorder, the status of a record on disk moves only from running to succeeded
      or to failed: a record that has succeeded or failed stays, unchanged in every field, to the end of the run. */
  lemma {:induction false} FinalRecordsStay(hash: Hasher, s: State, actions: seq<Action>, l: Location)
    requires Inv(hash, s) && Coherent(s) && RecoveriesSpareLive(hash, s, actions) && IsFinal(s.files, l)
    ensures IsFinal(Run(hash, s, actions).files, l) && Run(hash, s, actions).files[l] == s.files[l]
    decreases |actions|
  {
    if actions != [] {
      StepKeepsInv(hash, s, actions[0]);
      StepKeepsDisk(hash, s, actions[0]);
      FinalStepIsKept(hash, s, actions[0], l);
      FinalRecordsStay(hash, Step(hash, s, actions[0]).state, actions[1..], l);
    }
  }

  predicate NoRecovery(actions: seq<Action>) {
    forall i | 0 <= i < |actions| :: !actions[i].Recover?
  }

  lemma {:induction false} NoRecoverySparesLive(hash: Hasher, s: State, actions: seq<Action>)
    requires NoRecovery(actions)
    ensures RecoveriesSpareLive(hash, s, actions)
    decreases |actions|
  {
    if actions != [] {
      NoRecoverySparesLive(hash, Step(hash, s, actions[0]).state, actions[1..]);
    }
  }

  /** Without recoveries a succeeded record stays a succeeded one, unchanged, through every later call of the
      recorder, whatever fails. */
  lemma {:induction false} SucceededRecordsAreFinal(hash: Hasher, s: State, actions: seq<Action>, l: Location)
    requires Inv(hash, s) && Coherent(s) && NoRecovery(actions) && HasSucceeded(s.files, l)
    ensures HasSucceeded(Run(hash, s, actions).files, l) && Run(hash, s, actions).files[l] == s.files[l]
  {
    NoRecoverySparesLive(hash, s, actions);
    FinalRecordsStay(hash, s, actions, l);
  }
}
