/** The bounded reproduction argument vector of src/echoes/manifest.py: its validator and the lookup that
    relies on it. */
module ReproductionCommands {
  import opened Wrappers

  const PREFIX: seq<string> := ["uv", "run", "echoes", "run-lexical-pipeline", "--primary"]
  const REQUIRED: set<string> := {"--database", "--output-dir"}
  const FORCE: string := "--force"

  predicate StartsWithDashes(s: string) {
    |s| >= 2 && s[0] == '-' && s[1] == '-'
  }

  predicate IsValue(s: string) {
    s != "" && !StartsWithDashes(s)
  }

  /** The arguments from the index on are options not yet observed, and all required ones end up observed. */
  predicate ParsesFrom(argv: seq<string>, index: nat, observed: set<string>)
    decreases |argv| - index
  {
    if index >= |argv| then REQUIRED <= observed
    else if argv[index] == FORCE then FORCE !in observed && ParsesFrom(argv, index + 1, observed + {FORCE})
    else
      && argv[index] in REQUIRED && argv[index] !in observed
      && index + 1 < |argv| && IsValue(argv[index + 1])
      && ParsesFrom(argv, index + 2, observed + {argv[index]})
  }

  predicate IsBounded(argv: seq<string>) {
    |argv| >= |PREFIX| + 4 && argv[..|PREFIX|] == PREFIX && ParsesFrom(argv, |PREFIX|, {})
  }

  /** The validator's index loop. */
  method CheckBounded(argv: seq<string>) returns (ok: bool)
    ensures ok <==> IsBounded(argv)
  {
    if |argv| < |PREFIX| + 4 || argv[..|PREFIX|] != PREFIX {
      return false;
    }
    var observed: set<string> := {};
    var index := |PREFIX|;
    while index < |argv|
      invariant |PREFIX| <= index <= |argv|
      invariant ParsesFrom(argv, |PREFIX|, {}) == ParsesFrom(argv, index, observed)
    {
      var option := argv[index];
      if option == FORCE {
        if FORCE in observed {
          return false;
        }
        observed := observed + {FORCE};
        index := index + 1;
      } else {
        if option !in REQUIRED || option in observed || index + 1 >= |argv| || !IsValue(argv[index + 1]) {
          return false;
        }
        observed := observed + {option};
        index := index + 2;
      }
    }
    ok := REQUIRED <= observed;
  }

  /** `command.index(option)` from a position on. */
  function FirstIndex(argv: seq<string>, option: string, from: nat): Option<nat>
    decreases |argv| - from
  {
    if from >= |argv| then None
    else if argv[from] == option then Some(from)
    else FirstIndex(argv, option, from + 1)
  }

  /** `_reproduction_option` */
  function ReproductionOption(argv: seq<string>, option: string): Option<string> {
    match FirstIndex(argv, option, 0)
    case None => None
    case Some(index) => if index + 1 < |argv| then Some(argv[index + 1]) else None
  }

  /** The option stands at the position, a value follows it, and it stands nowhere else from `from` on. */
  predicate NamedOnceAt(argv: seq<string>, option: string, from: nat, at: nat) {
    && from <= at && at + 1 < |argv| && argv[at] == option && IsValue(argv[at + 1])
    && (forall k | from <= k < |argv| :: argv[k] == option ==> k == at)
  }

  predicate AbsentFrom(argv: seq<string>, option: string, from: nat) {
    forall k | from <= k < |argv| :: argv[k] != option
  }

  lemma {:induction false} FirstIndexIs(argv: seq<string>, option: string, from: nat, at: nat)
    requires NamedOnceAt(argv, option, from, at)
    ensures FirstIndex(argv, option, from) == Some(at)
    decreases |argv| - from
  {
    if from < at { FirstIndexIs(argv, option, from + 1, at); }
  }

  /** From any parsed position, an option already observed does not occur again. */
  lemma {:induction false} ObservedIsAbsent(argv: seq<string>, index: nat, observed: set<string>, option: string)
    requires ParsesFrom(argv, index, observed) && option in REQUIRED && option in observed
    ensures AbsentFrom(argv, option, index)
    decreases |argv| - index
  {
    assert StartsWithDashes(option);
    if index < |argv| {
      if argv[index] == FORCE {
        ObservedIsAbsent(argv, index + 1, observed + {FORCE}, option);
      } else {
        ObservedIsAbsent(argv, index + 2, observed + {argv[index]}, option);
      }
    }
  }

  /** From any parsed position, a required option still to come is named once, with a value after it. */
  lemma {:induction false} OptionIsNamedOnce(argv: seq<string>, index: nat, observed: set<string>, option: string)
    returns (at: nat)
    requires ParsesFrom(argv, index, observed) && option in REQUIRED && option !in observed
    ensures NamedOnceAt(argv, option, index, at)
    decreases |argv| - index
  {
    assert StartsWithDashes(option);
    assert index < |argv|;
    if argv[index] == FORCE {
      at := OptionIsNamedOnce(argv, index + 1, observed + {FORCE}, option);
    } else if argv[index] == option {
      ObservedIsAbsent(argv, index + 2, observed + {option}, option);
      at := index;
    } else {
      at := OptionIsNamedOnce(argv, index + 2, observed + {argv[index]}, option);
    }
  }

  lemma {:induction false} PrefixHasNoOption(argv: seq<string>, option: string, k: nat)
    requires IsBounded(argv) && option in REQUIRED && k < |PREFIX|
    ensures argv[k] != option
  {
    assert argv[..|PREFIX|][k] == PREFIX[k];
  }

  /** A validated command names each required option exactly once, and the lookup returns its value: nonempty
      and not an option. */
  lemma {:induction false} ValidatedCommandNamesEachOption(argv: seq<string>, option: string) returns (at: nat)
    requires IsBounded(argv) && option in REQUIRED
    ensures NamedOnceAt(argv, option, 0, at)
    ensures ReproductionOption(argv, option) == Some(argv[at + 1])
  {
    at := OptionIsNamedOnce(argv, |PREFIX|, {}, option);
    forall k | 0 <= k < |argv| && argv[k] == option
      ensures k == at
    {
      if k < |PREFIX| { PrefixHasNoOption(argv, option, k); }
    }
    FirstIndexIs(argv, option, 0, at);
  }

  // ----- All validated commands -----

  /** A nonempty argument that does not start like an option. */
  predicate IsPlain(v: string) { v != "" && !("--" <= v) }

  /** Both options with their values, in either order, and `--force` nowhere, in front, between or behind. */
  predicate IsArrangement(a: seq<string>, database: string, output: string) {
    var d, o, f := ["--database", database], ["--output-dir", output], ["--force"];
    || a == d + o || a == f + d + o || a == d + f + o || a == d + o + f
    || a == o + d || a == f + o + d || a == o + f + d || a == o + d + f
  }

  lemma {:induction false} ValueIsPlain(v: string)
    ensures IsValue(v) <==> IsPlain(v)
  {
    assert "--" <= v <==> |v| >= 2 && v[0] == '-' && v[1] == '-';
  }

  /** At the position stands the option, and a value after it. */
  predicate Names(argv: seq<string>, at: nat, option: string) {
    at + 1 < |argv| && argv[at] == option && IsValue(argv[at + 1])
  }

  /** The arguments from the position on are at most one `--force`, which has not been seen. */
  predicate EndsAt(argv: seq<string>, index: nat, observed: set<string>) {
    index == |argv| || (index + 1 == |argv| && argv[index] == FORCE && FORCE !in observed)
  }

  lemma {:induction false} NothingLeft(argv: seq<string>, index: nat, observed: set<string>)
    requires index <= |argv| && REQUIRED <= observed
    ensures ParsesFrom(argv, index, observed) <==> EndsAt(argv, index, observed)
  {
    if index < |argv| && argv[index] == FORCE && FORCE !in observed {
      if index + 1 < |argv| { assert !ParsesFrom(argv, index + 1, observed + {FORCE}); }
    }
  }

  predicate OneNamed(argv: seq<string>, index: nat, observed: set<string>, left: string) {
    || (Names(argv, index, left) && EndsAt(argv, index + 2, observed + {left}))
    || (index < |argv| && argv[index] == FORCE && FORCE !in observed
        && Names(argv, index + 1, left) && index + 3 == |argv|)
  }

  lemma {:induction false} OneLeft(argv: seq<string>, index: nat, observed: set<string>, left: string)
    requires index <= |argv| && left in REQUIRED && REQUIRED - observed == {left}
    ensures ParsesFrom(argv, index, observed) <==> OneNamed(argv, index, observed, left)
  {
    assert StartsWithDashes(left) && left != FORCE && !(REQUIRED <= observed);
    if Names(argv, index, left) { NothingLeft(argv, index + 2, observed + {left}); }
    if index < |argv| && argv[index] == FORCE && FORCE !in observed {
      assert REQUIRED - (observed + {FORCE}) == {left};
      if Names(argv, index + 1, left) { NothingLeft(argv, index + 3, observed + {FORCE} + {left}); }
    }
  }

  predicate TwoNamed(argv: seq<string>, first: string, second: string) {
    || (Names(argv, 5, first) && OneNamed(argv, 7, {first}, second))
    || (5 < |argv| && argv[5] == FORCE && Names(argv, 6, first) && Names(argv, 8, second) && |argv| == 10)
  }

  lemma {:induction false} TwoLeft(argv: seq<string>)
    requires |argv| >= 9
    ensures ParsesFrom(argv, 5, {}) <==>
              TwoNamed(argv, "--database", "--output-dir") || TwoNamed(argv, "--output-dir", "--database")
  {
    var d, o := "--database", "--output-dir";
    assert d != FORCE && o != FORCE && d != o && REQUIRED - {d} == {o} && REQUIRED - {o} == {d};
    assert REQUIRED - {FORCE, d} == {o} && REQUIRED - {FORCE, o} == {d};
    assert {} + {d} == {d} && {} + {o} == {o} && {} + {FORCE} == {FORCE};
    assert {FORCE} + {d} == {FORCE, d} && {FORCE} + {o} == {FORCE, o};
    if Names(argv, 5, d) { OneLeft(argv, 7, {d}, o); }
    if Names(argv, 5, o) { OneLeft(argv, 7, {o}, d); }
    if argv[5] == FORCE {
      if Names(argv, 6, d) { OneLeft(argv, 8, {FORCE, d}, o); }
      if Names(argv, 6, o) { OneLeft(argv, 8, {FORCE, o}, d); }
    }
  }

  /** The validated commands are exactly the prefix with one of these arrangements behind it, both values plain. */
  lemma {:induction false} BoundedExactlyWhen(argv: seq<string>)
    ensures IsBounded(argv) <==>
              |argv| >= 9 && argv[..5] == PREFIX
              && exists database, output ::
                   IsPlain(database) && IsPlain(output) && IsArrangement(argv[5..], database, output)
  {
    if |argv| >= 9 {
      TwoLeft(argv);
      ArrangedWhenNamed(argv);
    }
  }

  lemma {:induction false} ArrangedWhenNamed(argv: seq<string>)
    requires |argv| >= 9
    ensures TwoNamed(argv, "--database", "--output-dir") || TwoNamed(argv, "--output-dir", "--database") <==>
              exists database, output ::
                IsPlain(database) && IsPlain(output) && IsArrangement(argv[5..], database, output)
  {
    if TwoNamed(argv, "--database", "--output-dir") || TwoNamed(argv, "--output-dir", "--database") {
      var database, output := NamedIsArranged(argv);
    }
    if database, output :| IsPlain(database) && IsPlain(output) && IsArrangement(argv[5..], database, output) {
      ArrangedIsNamed(argv, database, output);
    }
  }

  lemma {:induction false} NamedIsArranged(argv: seq<string>) returns (database: string, output: string)
    requires |argv| >= 9
    requires TwoNamed(argv, "--database", "--output-dir") || TwoNamed(argv, "--output-dir", "--database")
    ensures IsPlain(database) && IsPlain(output) && IsArrangement(argv[5..], database, output)
  {
    var a := argv[5..];
    assert forall k :: 0 <= k < |a| ==> a[k] == argv[5 + k];
    forall v ensures IsValue(v) <==> IsPlain(v) {
      ValueIsPlain(v);
    }
    var at := if argv[5] == FORCE then 6 else 5;
    var next := if argv[5] == FORCE || argv[7] != FORCE then at + 2 else 8;
    database := if argv[at] == "--database" then argv[at + 1] else argv[next + 1];
    output := if argv[at] == "--database" then argv[next + 1] else argv[at + 1];
  }

  lemma {:induction false} ArrangedIsNamed(argv: seq<string>, database: string, output: string)
    requires |argv| >= 9 && IsPlain(database) && IsPlain(output) && IsArrangement(argv[5..], database, output)
    ensures TwoNamed(argv, "--database", "--output-dir") || TwoNamed(argv, "--output-dir", "--database")
  {
    var a := argv[5..];
    assert forall k :: 0 <= k < |a| ==> a[k] == argv[5 + k];
    ValueIsPlain(database);
    ValueIsPlain(output);
  }
}
