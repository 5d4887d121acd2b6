/** Forced acquisition of a source (src/echoes/acquire/sources.py): stage a tree, swap it in behind a backup, and
    undo on failure. Every file operation may succeed, raise, or be the last thing the process does. */
module Acquisition {
  import opened Wrappers

  type Tree = map<string, string>

  const RECEIPT: string := "acquisition-receipt.json"
  const ATTEMPTS: nat := 10

  datatype Disk = Disk(target: Option<Tree>, backup: Option<Tree>, staging: Option<Tree>)

  /** How one operation ends; a stop is a killed process or an exception no handler catches. */
  datatype Fault = Fine | Raises | Stops

  /** A rename may also be denied for the moment, which is retried. */
  datatype RenameFault = Renames | Denied | Refuses | StopsFirst

  /** A removal that ends early leaves the files it had not reached. */
  datatype RemoveFault = Removes | RaisesKeeping(kept: set<string>) | StopsKeeping(kept: set<string>)

  /** What befalls each operation, should it be reached; operations the sequences do not cover go well. */
  datatype Plan = Plan(
    makeParent: Fault, makeStaging: Fault, fetches: seq<Fault>, debris: Tree, writeReceipt: Fault,
    backUp: Fault, renames: seq<RenameFault>, innerRestore: Fault, removeBackup: RemoveFault,
    removeStaging: RemoveFault, outerRestore: Fault)

  datatype Signal = Done | Raised | Stopped

  function SignalOf(f: Fault): Signal {
    match f case Fine => Done case Raises => Raised case Stops => Stopped
  }

  function RemovalSignal(f: RemoveFault): Signal {
    match f case Removes => Done case RaisesKeeping(_) => Raised case StopsKeeping(_) => Stopped
  }

  function Remainder(tree: Option<Tree>, f: RemoveFault): Option<Tree> {
    if tree.None? || f.Removes? then None else Some(map path | path in tree.value && path in f.kept :: tree.value[path])
  }

  function FaultAt(faults: seq<Fault>, i: nat): Fault { if i < |faults| then faults[i] else Fine }

  function RenameFaultAt(faults: seq<RenameFault>, i: nat): RenameFault { if i < |faults| then faults[i] else Renames }

  /** The outcome of the retried rename: the first answer that is not a denial, or the tenth. */
  function RenameOutcome(faults: seq<RenameFault>, attempt: nat): RenameFault
    requires attempt < ATTEMPTS
    decreases ATTEMPTS - attempt
  {
    var answer := RenameFaultAt(faults, attempt);
    if answer.Denied? && attempt + 1 < ATTEMPTS then RenameOutcome(faults, attempt + 1) else answer
  }

  /** The declared files with the receipt, which is written last. */
  function Fetched(files: seq<(string, string)>, count: nat): Tree
    requires count <= |files|
  {
    if count == 0 then map[] else Fetched(files, count - 1)[files[count - 1].0 := files[count - 1].1]
  }

  function Complete(files: seq<(string, string)>, receipt: string): Tree { Fetched(files, |files|)[RECEIPT := receipt] }

  /** A reader finds nothing half-made: the target is the former tree, or the complete new one, or absent while the
      former tree waits, whole, at the backup. */
  predicate Safe(d: Disk, former: Option<Tree>, complete: Tree) {
    || d.target == former
    || d.target == Some(complete)
    || (d.target.None? && d.backup == former)
  }

  predicate AlwaysSafe(history: seq<Disk>, former: Option<Tree>, complete: Tree) {
    forall i | 0 <= i < |history| :: Safe(history[i], former, complete)
  }

  class Volume {
    var target: Option<Tree>
    var backup: Option<Tree>
    var staging: Option<Tree>
    /** The disk after every operation so far. */
    ghost var history: seq<Disk>

    ghost function Now(): Disk
      reads this
    {
      Disk(target, backup, staging)
    }

    constructor (target: Option<Tree>)
      ensures Now() == Disk(target, None, None) && history == []
    {
      this.target, backup, staging, history := target, None, None, [];
    }

    method MakeStaging(f: Fault) returns (signal: Signal)
      modifies this
      ensures signal == SignalOf(f)
      ensures Now() == if f.Fine? then old(Now()).(staging := Some(map[])) else old(Now())
      ensures history == old(history) + [Now()]
    {
      if f.Fine? {
        staging := Some(map[]);
      }
      signal := SignalOf(f);
      history := history + [Now()];
    }

    /** Write a file into the staging tree; a failed download may leave anything there. */
    method Put(path: string, content: string, f: Fault, debris: Tree) returns (signal: Signal)
      requires staging.Some?
      modifies this
      ensures signal == SignalOf(f)
      ensures Now() == old(Now()).(staging := Some(if f.Fine? then old(staging).value[path := content] else debris))
      ensures history == old(history) + [Now()]
    {
      staging := Some(if f.Fine? then staging.value[path := content] else debris);
      signal := SignalOf(f);
      history := history + [Now()];
    }

    method BackUp(f: Fault) returns (signal: Signal)
      modifies this
      ensures signal == SignalOf(f)
      ensures Now() == if f.Fine? then Disk(None, old(target), old(staging)) else old(Now())
      ensures history == old(history) + [Now()]
    {
      if f.Fine? {
        target, backup := None, target;
      }
      signal := SignalOf(f);
      history := history + [Now()];
    }

    method Restore(f: Fault) returns (signal: Signal)
      modifies this
      ensures signal == SignalOf(f)
      ensures Now() == if f.Fine? then Disk(old(backup), None, old(staging)) else old(Now())
      ensures history == old(history) + [Now()]
    {
      if f.Fine? {
        target, backup := backup, None;
      }
      signal := SignalOf(f);
      history := history + [Now()];
    }

    method RemoveBackup(f: RemoveFault) returns (signal: Signal)
      modifies this
      ensures signal == RemovalSignal(f)
      ensures Now() == old(Now()).(backup := Remainder(old(backup), f))
      ensures history == old(history) + [Now()]
    {
      backup := Remainder(backup, f);
      signal := RemovalSignal(f);
      history := history + [Now()];
    }

    method RemoveStaging(f: RemoveFault) returns (signal: Signal)
      modifies this
      ensures signal == RemovalSignal(f)
      ensures Now() == old(Now()).(staging := Remainder(old(staging), f))
      ensures history == old(history) + [Now()]
    {
      staging := Remainder(staging, f);
      signal := RemovalSignal(f);
      history := history + [Now()];
    }

    /** `_atomic_directory_rename(staging, target)` */
    method Promote(faults: seq<RenameFault>) returns (signal: Signal)
      requires target.None? && staging.Some?
      modifies this
      ensures var outcome := RenameOutcome(faults, 0);
              && Now() == (if outcome.Renames? then Disk(old(staging), old(backup), None) else old(Now()))
              && signal == (if outcome.Renames? then Done else if outcome.StopsFirst? then Stopped else Raised)
      ensures history == old(history) + [Now()]
    {
      var attempt := 0;
      signal := Raised;
      while attempt < ATTEMPTS
        invariant attempt <= ATTEMPTS
        invariant attempt < ATTEMPTS ==> RenameOutcome(faults, 0) == RenameOutcome(faults, attempt)
        invariant attempt == ATTEMPTS ==> RenameOutcome(faults, 0).Denied?
        invariant signal == Raised && Now() == old(Now()) && history == old(history)
      {
        match RenameFaultAt(faults, attempt) {
          case Renames =>
            target, staging := staging, None;
            signal := Done;
            history := history + [Now()];
            return;
          case Refuses =>
            history := history + [Now()];
            return;
          case StopsFirst =>
            signal := Stopped;
            history := history + [Now()];
            return;
          case Denied =>
            attempt := attempt + 1;
        }
      }
      history := history + [Now()];
    }
  }

  // ---- the protocol ----

  predicate AllFetched(plan: Plan, count: nat) {
    forall i | 0 <= i < count :: FaultAt(plan.fetches, i).Fine?
  }

  /** Nothing befalls the staging of the complete tree. */
  predicate Stages(plan: Plan, count: nat) {
    plan.makeStaging.Fine? && AllFetched(plan, count) && plan.writeReceipt.Fine?
  }

  /** The complete tree takes the target's place. */
  predicate Promotes(plan: Plan, count: nat, former: Option<Tree>) {
    Stages(plan, count) && (former.None? || plan.backUp.Fine?) && RenameOutcome(plan.renames, 0).Renames?
  }

  /** The former tree is left at its backup path: its way back failed twice, or failed once and then the staging
      tree could not be removed. */
  predicate Strands(plan: Plan, count: nat, former: Option<Tree>) {
    && Stages(plan, count) && former.Some? && plan.backUp.Fine?
    && (RenameOutcome(plan.renames, 0).Denied? || RenameOutcome(plan.renames, 0).Refuses?)
    && plan.innerRestore.Raises?
    && (!plan.removeStaging.Removes? || !plan.outerRestore.Fine?)
  }

  /** The body of the `try` up to the receipt. */
  method Stage(v: Volume, files: seq<(string, string)>, receipt: string, plan: Plan) returns (signal: Signal)
    requires v.backup.None? && v.staging.None?
    modifies v
    ensures v.target == old(v.target) && v.backup.None?
    ensures (signal == Done) <==> Stages(plan, |files|)
    ensures signal == Done ==> v.staging == Some(Complete(files, receipt))
    ensures |v.history| >= |old(v.history)| && v.history[..|old(v.history)|] == old(v.history)
    ensures forall i | |old(v.history)| <= i < |v.history| :: v.history[i].target == v.target
  {
    signal := v.MakeStaging(plan.makeStaging);
    if signal != Done {
      return;
    }
    for i := 0 to |files|
      invariant v.target == old(v.target) && v.backup.None?
      invariant AllFetched(plan, i) && v.staging == Some(Fetched(files, i))
      invariant |v.history| >= |old(v.history)| && v.history[..|old(v.history)|] == old(v.history)
      invariant forall j | |old(v.history)| <= j < |v.history| :: v.history[j].target == v.target
    {
      signal := v.Put(files[i].0, files[i].1, FaultAt(plan.fetches, i), plan.debris);
      if signal != Done {
        return;
      }
    }
    signal := v.Put(RECEIPT, receipt, plan.writeReceipt, plan.debris);
  }

  /** The rest of the `try`: back up, promote or put back, drop the backup. */
  method Publish(v: Volume, plan: Plan, ghost former: Option<Tree>, ghost complete: Tree) returns (signal: Signal)
    requires v.target == former && v.backup.None? && v.staging == Some(complete)
    requires AlwaysSafe(v.history, former, complete)
    modifies v
    ensures AlwaysSafe(v.history, former, complete)
    ensures var outcome := RenameOutcome(plan.renames, 0);
            if former.Some? && !plan.backUp.Fine? then
              signal == SignalOf(plan.backUp) && v.Now() == Disk(former, None, Some(complete))
            else if outcome.Renames? then
              && signal == (if former.Some? then RemovalSignal(plan.removeBackup) else Done)
              && v.Now() == Disk(Some(complete), Remainder(former, plan.removeBackup), None)
            else if outcome.StopsFirst? then signal == Stopped
            else if former.Some? && plan.innerRestore.Stops? then signal == Stopped
            else
              && signal == Raised
              && v.Now() == if former.Some? && plan.innerRestore.Raises? then Disk(None, former, Some(complete))
                            else Disk(former, None, Some(complete))
  {
    if v.target.Some? {
      signal := v.BackUp(plan.backUp);
      if signal != Done {
        return;
      }
    }
    signal := v.Promote(plan.renames);
    if signal == Raised {
      if v.backup.Some? && v.target.None? {
        var restored := v.Restore(plan.innerRestore);
        if restored == Stopped {
          signal := Stopped;
        }
      }
      return;
    }
    if signal == Done && v.backup.Some? {
      signal := v.RemoveBackup(plan.removeBackup);
    }
  }

  /** The outer handler. It never lets a raised error become a return. */
  method CleanUp(v: Volume, plan: Plan, ghost former: Option<Tree>, ghost complete: Tree) returns (signal: Signal)
    requires AlwaysSafe(v.history, former, complete)
    requires v.target == Some(complete) || (v.target == former && v.backup.None?)
             || (v.target.None? && v.backup == former)
    modifies v
    ensures AlwaysSafe(v.history, former, complete)
    ensures signal != Done
    ensures old(v.target).Some? ==> v.target == old(v.target) && v.backup == old(v.backup)
    ensures old(v.target).None? && old(v.backup).None? ==> v.target.None?
    ensures signal == Raised && old(v.target).None? && old(v.backup).Some? ==>
              (v.target == if (old(v.staging).Some? && !plan.removeStaging.Removes?)
                || !plan.outerRestore.Fine? then None else former)
  {
    if v.staging.Some? {
      signal := v.RemoveStaging(plan.removeStaging);
      if signal != Done {
        return;
      }
    }
    if v.backup.Some? && v.target.None? {
      signal := v.Restore(plan.outerRestore);
      if signal == Stopped {
        return;
      }
    }
    signal := Raised;
  }

  /** An archive is never replaced, and anything else only by force. */
  predicate Declines(archive: bool, force: bool, former: Option<Tree>) {
    (archive && force) || (former.Some? && !force)
  }

  /** `acquire_source`. Both temporary names are fresh. */
  method AcquireSource(v: Volume, archive: bool, force: bool, files: seq<(string, string)>, receipt: string, plan: Plan)
    returns (signal: Signal)
    requires v.backup.None? && v.staging.None? && v.history == []
    modifies v
    ensures AlwaysSafe(v.history, old(v.target), Complete(files, receipt))
    ensures Declines(archive, force, old(v.target)) ==> signal == Raised
    ensures Declines(archive, force, old(v.target)) || !plan.makeParent.Fine? ==>
              signal != Done && v.Now() == old(v.Now()) && v.history == []
    ensures var begun := !Declines(archive, force, old(v.target)) && plan.makeParent.Fine?;
            begun ==>
              && (signal == Done <==>
                    Promotes(plan, |files|, old(v.target)) && (old(v.target).None? || plan.removeBackup.Removes?))
              && (signal == Done ==> v.Now() == Disk(Some(Complete(files, receipt)), None, None))
              && (signal == Raised ==>
                    v.target == if Promotes(plan, |files|, old(v.target)) then Some(Complete(files, receipt))
                                else if Strands(plan, |files|, old(v.target)) then None
                                else old(v.target))
  {
    ghost var former := v.target;
    ghost var complete := Complete(files, receipt);
    if archive && force {
      return Raised;
    }
    if v.target.Some? && !force {
      return Raised;
    }
    signal := SignalOf(plan.makeParent);
    if signal != Done {
      return;
    }
    signal := Stage(v, files, receipt, plan);
    assert AlwaysSafe(v.history, former, complete);
    if signal == Done {
      signal := Publish(v, plan, former, complete);
    }
    if signal == Raised {
      signal := CleanUp(v, plan, former, complete);
    }
  }

  /** The retried rename succeeds exactly when one of the ten attempts does and only denials come before it. */
  lemma {:induction false} RetrySucceedsExactlyWhen(faults: seq<RenameFault>, attempt: nat)
    requires attempt < ATTEMPTS
    ensures RenameOutcome(faults, attempt).Renames? <==>
            exists k | attempt <= k < ATTEMPTS ::
              RenameFaultAt(faults, k).Renames? && forall i | attempt <= i < k :: RenameFaultAt(faults, i).Denied?
    decreases ATTEMPTS - attempt
  {
    if RenameFaultAt(faults, attempt).Denied? && attempt + 1 < ATTEMPTS {
      RetrySucceedsExactlyWhen(faults, attempt + 1);
    }
  }

  /** A complete tree holds every declared file, the last of those with one path, and the receipt, and nothing
      else. */
  lemma {:induction false} CompleteTreeHolds(files: seq<(string, string)>, count: nat)
    requires count <= |files|
    ensures forall path :: path in Fetched(files, count) <==> exists i | 0 <= i < count :: files[i].0 == path
    ensures forall i | 0 <= i < count :: (forall j | i < j < count :: files[j].0 != files[i].0) ==>
            Fetched(files, count)[files[i].0] == files[i].1
  {
    if count > 0 {
      CompleteTreeHolds(files, count - 1);
    }
  }
}
