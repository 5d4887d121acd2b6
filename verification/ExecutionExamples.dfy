/** Two concrete runs in which an execution record does what its design rules out: a removal that fails leaves two
    files, and a recorder that outlives a recovery turns a succeeded record into a failed one. */
module ExecutionExamples {
  import opened Wrappers
  import opened ExecutionManifests
  import opened ExecutionRuns
  import opened ExecutionTheorems
  import ReproductionCommands
  import Text

  function Digest(): (s: string)
    ensures IsSha256(s)
  {
    seq(64, _ => 'a')
  }

  function ConstantHash(hashes: Hashes): string { Digest() }

  const COMMAND: seq<string> := ReproductionCommands.PREFIX + ["--database", "d", "--output-dir", "o"]

  function Setting(): Context {
    Context("e", 0.0, Digest(), Digest(), Digest(), map["c" := "c"], map["c" := Digest()], Some("m"), Some(Digest()),
            map["s" := Digest()], None, COMMAND, [], [])
  }

  const CONFIGURE: Action := BindConfiguration(map[], 1, map["seed" := 1], map["data" := "1"], false)

  function Bind(unlinkFails: bool): Action { BindRun("r", map["t" := Digest()], map[], map[], false, unlinkFails) }

  function Produce(): Action { BindOutputs(map["o" := Digest()], map["o" := Digest()], Some(Digest()), false) }

  const FAIL: Action := FinalizeFailure(2.0, 2.0, "RuntimeError: late", false)

  lemma {:induction false} CommandIsBounded()
    ensures ReproductionCommands.IsBounded(COMMAND)
  {
    assert COMMAND[..5] == ReproductionCommands.PREFIX;
    assert ReproductionCommands.ParsesFrom(COMMAND, 9, {} + {"--database"} + {"--output-dir"});
    assert ReproductionCommands.ParsesFrom(COMMAND, 7, {} + {"--database"});
  }

  lemma {:induction false} NamesAreSafe()
    ensures IsSafeIdentifier("e") && IsSafeIdentifier("r") && IsSafeIdentifier(UNRESOLVED_RUN_ID)
  {
  }

  const UNBOUND: Location := Location(UNRESOLVED_RUN_ID, "e")
  const BOUND: Location := Location("r", "e")

  function Start(): Manifest { Fresh(ConstantHash, Setting()) }

  function Configured1(): Manifest { Configured(ConstantHash, Start(), map[], 1, map["seed" := 1], map["data" := "1"]) }

  function Bound1(): Manifest { RunBound(Configured1(), "r", map["t" := Digest()], map[], map[]) }

  function Produced(): Manifest {
    WithOutputs(Bound1(), map["o" := Digest()], map["o" := Digest()], Some(Digest()))
  }

  function Restored(): Manifest { Recovered(Produced(), Digest(), 1.0) }

  /** The state of a recorder whose record is its only file. */
  function Alone(l: Location, m: Manifest): State { State(map[l := m], l, m) }

  lemma {:induction false} RunsOne(s: State, a: Action, actions: seq<Action>)
    ensures Run(ConstantHash, s, [a] + actions) == Run(ConstantHash, Step(ConstantHash, s, a).state, actions)
  {
    assert ([a] + actions)[1..] == actions;
  }

  lemma {:induction false} Starts()
    ensures Begin(ConstantHash, map[], Setting(), false) == Some(Alone(UNBOUND, Start()))
  {
    CommandIsBounded();
    NamesAreSafe();
  }

  lemma {:induction false} Configures()
    ensures Configured1().Valid(ConstantHash)
    ensures Step(ConstantHash, Alone(UNBOUND, Start()), CONFIGURE) == Outcome(Alone(UNBOUND, Configured1()), true)
  {
    CommandIsBounded();
    NamesAreSafe();
    assert Alone(UNBOUND, Start()).files[UNBOUND := Configured1()] == map[UNBOUND := Configured1()];
  }

  lemma {:induction false} Binds()
    ensures Bound1().Valid(ConstantHash)
    ensures Move(ConstantHash, Alone(UNBOUND, Configured1()), Bound1(), false, true)
            == Outcome(State(map[UNBOUND := Configured1(), BOUND := Bound1()], UNBOUND, Configured1()), false)
    ensures Move(ConstantHash, Alone(UNBOUND, Configured1()), Bound1(), false, false)
            == Outcome(Alone(BOUND, Bound1()), true)
  {
    Configures();
    NamesAreSafe();
    assert Bound1().Identity() == BOUND;
    var files := map[UNBOUND := Configured1()][BOUND := Bound1()];
    assert files == map[UNBOUND := Configured1(), BOUND := Bound1()];
    assert files - {UNBOUND} == map[BOUND := Bound1()];
  }

  /** With the old file's removal failing while the run is bound, the execution has two files. */
  lemma {:induction false} FailedUnlinkLeavesTwoFiles() returns (start: State)
    ensures Begin(ConstantHash, map[], Setting(), false) == Some(start)
    ensures |OwnFiles(Run(ConstantHash, start, [CONFIGURE, Bind(true)]))| == 2
  {
    Starts();
    Configures();
    Binds();
    start := Alone(UNBOUND, Start());
    RunsOne(start, CONFIGURE, [Bind(true)]);
    RunsOne(Alone(UNBOUND, Configured1()), Bind(true), []);
    var end := Run(ConstantHash, start, [CONFIGURE] + [Bind(true)]);
    assert [CONFIGURE] + [Bind(true)] == [CONFIGURE, Bind(true)];
    assert OwnFiles(end) == {UNBOUND, BOUND};
  }

  lemma {:induction false} Produces()
    ensures Produced().Valid(ConstantHash)
    ensures Step(ConstantHash, Alone(BOUND, Bound1()), Produce()) == Outcome(Alone(BOUND, Produced()), true)
  {
    Binds();
    assert Alone(BOUND, Bound1()).files[BOUND := Produced()] == map[BOUND := Produced()];
  }

  const RESCUE: Action := Recover(BOUND, Digest(), "success", 1.0, false)

  lemma {:induction false} Rescues()
    ensures Restored().Valid(ConstantHash) && Restored().status.Succeeded?
    ensures Step(ConstantHash, Alone(BOUND, Produced()), RESCUE) ==
            Outcome(State(map[BOUND := Restored()], BOUND, Produced()), true)
  {
    Produces();
    ProducedIsComplete();
    assert map[BOUND := Produced()][BOUND := Restored()] == map[BOUND := Restored()];
  }

  /** Configure, bind the run, bind the outputs, be recovered as succeeded, and then the rest. */
  function Story(rest: seq<Action>): seq<Action> { [CONFIGURE, Bind(false), Produce(), RESCUE] + rest }

  function StatusOnDisk(s: State, actions: seq<Action>): Option<Status> {
    var files := Run(ConstantHash, s, actions).files;
    if BOUND in files then Some(files[BOUND].status) else None
  }

  /** A recorder that is still live when its record is recovered as succeeded then records a failure over it. */
  lemma {:induction false} RecoveredRecordIsOverwritten() returns (start: State)
    ensures Begin(ConstantHash, map[], Setting(), false) == Some(start)
    ensures StatusOnDisk(start, Story([])) == Some(Succeeded)
    ensures StatusOnDisk(start, Story([FAIL])) == Some(Failed)
  {
    Starts();
    start := Alone(UNBOUND, Start());
    var rescued := State(map[BOUND := Restored()], BOUND, Produced());
    RunIsFollowed(start, rescued, []);
    RunIsFollowed(start, rescued, [FAIL]);
    Rescues();
    Fails();
    RunsOne(rescued, FAIL, []);
    assert [FAIL] + [] == [FAIL];
  }

  lemma {:induction false} Fails()
    ensures Step(ConstantHash, State(map[BOUND := Restored()], BOUND, Produced()), FAIL).state
            == Alone(BOUND, Broken(Produced(), 2.0, 2.0, "RuntimeError: late"))
  {
    Produces();
    var failed := Broken(Produced(), 2.0, 2.0, "RuntimeError: late");
    assert failed.Valid(ConstantHash);
    assert map[BOUND := Restored()][BOUND := failed] == map[BOUND := failed];
  }

  lemma {:induction false} RunIsFollowed(start: State, rescued: State, rest: seq<Action>)
    requires start == Alone(UNBOUND, Start()) && rescued == State(map[BOUND := Restored()], BOUND, Produced())
    ensures Run(ConstantHash, start, Story(rest)) == Run(ConstantHash, rescued, rest)
  {
    Configures();
    Binds();
    Produces();
    Rescues();
    RunsFour(start, Alone(UNBOUND, Configured1()), Alone(BOUND, Bound1()), Alone(BOUND, Produced()), rescued,
             [CONFIGURE, Bind(false), Produce(), RESCUE], rest);
  }

  lemma {:induction false} RunsFour(s: State, t: State, u: State, v: State, w: State, actions: seq<Action>,
                                    rest: seq<Action>)
    requires |actions| == 4
    requires Step(ConstantHash, s, actions[0]).state == t && Step(ConstantHash, t, actions[1]).state == u
    requires Step(ConstantHash, u, actions[2]).state == v && Step(ConstantHash, v, actions[3]).state == w
    ensures Run(ConstantHash, s, actions + rest) == Run(ConstantHash, w, rest)
  {
    RunsOne(v, actions[3], rest);
    RunsOne(u, actions[2], [actions[3]] + rest);
    RunsOne(t, actions[1], [actions[2]] + ([actions[3]] + rest));
    RunsOne(s, actions[0], [actions[1]] + ([actions[2]] + ([actions[3]] + rest)));
    assert actions + rest == [actions[0]] + ([actions[1]] + ([actions[2]] + ([actions[3]] + rest)));
  }

  lemma {:induction false} ProducedIsComplete()
    ensures Produced().ProvenanceIsResolved() && Produced().DigestsAreSha256()
  {
    var m := Produced();
    assert "seed" in m.randomSeeds && "data" in m.datasetVersions && "s" in m.sourceFileHashes;
    assert "c" in m.configurationFiles && "c" in m.configurationHashes && "t" in m.inputTableHashes;
    assert "o" in m.outputTableHashes && "o" in m.outputTablePhysicalHashes;
  }
}
