/** The validator of the positive-control rows (src/echoes/benchmarks/positive_controls.py): what its checks on
    families, references, groups and splits, each local, come to for whole chains of related rows. */
module PositiveControls {
  import opened Ordering
  import opened BenchmarkRows
  import opened Connectivity
  import opened WeightedCycles
  import Dictionaries

  datatype ControlRow = ControlRow(
    controlId: Id, referenceA: Id, referenceB: Id, familyId: Id, groupId: Id, split: Partition,
    corpusPair: string, relationshipClass: string)

  /** What the configuration fixes. The checks on a row by itself, from its identifier to its verifier, are one
      predicate. */
  datatype Config = Config(
    rowCount: nat, familyCount: nat, groupCount: nat, weights: Weights, digest: Id -> Id, governs: ControlRow -> bool,
    requiredPairs: set<string>, requiredClasses: set<string>)
  {
    /** `enough_groups_exist_for_every_partition` */
    predicate Valid() { weights.Valid() && groupCount >= weights.Size() }
  }

  // ---- what an accepted table is ----

  ghost predicate DistinctIds(rows: seq<ControlRow>) {
    forall i, j | 0 <= i < j < |rows| :: rows[i].controlId != rows[j].controlId
  }

  predicate SamePair(r: ControlRow, s: ControlRow) { r.referenceA == s.referenceA && r.referenceB == s.referenceB }

  ghost predicate DistinctPairs(rows: seq<ControlRow>) {
    forall i, j | 0 <= i < j < |rows| :: !SamePair(rows[i], rows[j])
  }

  ghost predicate AllGoverned(rows: seq<ControlRow>, config: Config) {
    forall i | 0 <= i < |rows| :: config.governs(rows[i])
  }

  /** Each first component comes with one second component. */
  ghost predicate Functional<T(!new)>(facts: set<(Id, T)>) {
    forall k, v, w :: (k, v) in facts && (k, w) in facts ==> v == w
  }

  function FamilyFacts(rows: seq<ControlRow>): set<(Id, Id)> { set r | r in rows :: (r.familyId, r.groupId) }

  function EndpointFacts(rows: seq<ControlRow>): set<(Id, Id)> {
    (set r | r in rows :: (r.referenceA, r.groupId)) + (set r | r in rows :: (r.referenceB, r.groupId))
  }

  function SplitFacts(rows: seq<ControlRow>): set<(Id, Partition)> { set r | r in rows :: (r.groupId, r.split) }

  function Families(rows: seq<ControlRow>): set<Id> { set r | r in rows :: r.familyId }

  function Groups(rows: seq<ControlRow>): set<Id> { set r | r in rows :: r.groupId }

  /** Families and references each lie in one leakage group, and a leakage group in one partition. */
  ghost predicate NothingCrosses(rows: seq<ControlRow>) {
    Functional(FamilyFacts(rows)) && Functional(EndpointFacts(rows)) && Functional(SplitFacts(rows))
  }

  predicate AsDealt(rows: seq<ControlRow>, splits: map<Id, Partition>) {
    forall r | r in rows :: r.groupId in splits && r.split == splits[r.groupId]
  }

  /** The groups are as many as configured, and every row has the partition its group is dealt. */
  predicate GroupsAreFrozen(rows: seq<ControlRow>, config: Config)
    requires config.Valid()
  {
    |Groups(rows)| == config.groupCount && AsDealt(rows, GroupSplits(Groups(rows), config.digest, config.weights))
  }

  function Partitions(rows: seq<ControlRow>): set<Partition> { set r | r in rows :: r.split }

  predicate Populated(rows: seq<ControlRow>) { Partitions(rows) == {Train, Development, Test} }

  function CorpusPairs(rows: seq<ControlRow>): set<string> { set r | r in rows :: r.corpusPair }

  function Classes(rows: seq<ControlRow>): set<string> { set r | r in rows :: r.relationshipClass }

  ghost predicate IsAccepted(rows: seq<ControlRow>, config: Config)
    requires config.Valid()
  {
    && |rows| == config.rowCount
    && DistinctIds(rows) && DistinctPairs(rows) && AllGoverned(rows, config)
    && NothingCrosses(rows) && |Families(rows)| == config.familyCount && GroupsAreFrozen(rows, config)
    && Populated(rows) && CorpusPairs(rows) == config.requiredPairs && Classes(rows) == config.requiredClasses
  }

  // ---- the dictionaries the loop fills ----

  /** `sets[key].add(value)` on a `defaultdict(set)` */
  function Add<T>(sets: map<Id, set<T>>, key: Id, value: T): map<Id, set<T>> {
    sets[key := (if key in sets then sets[key] else {}) + {value}]
  }

  /** The dictionary holds exactly the facts, filed under their keys. */
  ghost predicate FilesFacts<T(!new)>(sets: map<Id, set<T>>, facts: set<(Id, T)>) {
    && (forall k, v :: (k, v) in facts <==> k in sets && v in sets[k])
    && (forall k | k in sets :: sets[k] != {})
  }

  lemma {:induction false} AddFilesFact<T(!new)>(sets: map<Id, set<T>>, facts: set<(Id, T)>, key: Id, value: T)
    requires FilesFacts(sets, facts)
    ensures FilesFacts(Add(sets, key, value), facts + {(key, value)})
  {
  }

  predicate AllSingle<T>(sets: map<Id, set<T>>) {
    forall key | key in sets :: |sets[key]| == 1
  }

  lemma {:induction false} SingleIsOne<T>(s: set<T>, x: T, y: T)
    requires |s| == 1 && x in s && y in s
    ensures x == y
  {
    assert |s - {x}| == 0;
    assert s - {x} == {};
  }

  lemma {:induction false} OneIsSingle<T>(s: set<T>, x: T)
    requires x in s && forall y | y in s :: y == x
    ensures |s| == 1
  {
    assert s == {x};
  }

  /** Sets of one element each are what it takes for every key to have one value. */
  lemma {:induction false} SingleExactlyWhenFunctional<T(!new)>(sets: map<Id, set<T>>, facts: set<(Id, T)>)
    requires FilesFacts(sets, facts)
    ensures AllSingle(sets) <==> Functional(facts)
  {
    if AllSingle(sets) {
      forall k, v, w | (k, v) in facts && (k, w) in facts
        ensures v == w
      {
        SingleIsOne(sets[k], v, w);
      }
    }
    if Functional(facts) {
      forall k | k in sets
        ensures |sets[k]| == 1
      {
        var x :| x in sets[k];
        assert forall y | y in sets[k] :: (k, y) in facts && (k, x) in facts;
        OneIsSingle(sets[k], x);
      }
    }
  }

  lemma {:induction false} FamilyKeys(rows: seq<ControlRow>, sets: map<Id, set<Id>>)
    requires FilesFacts(sets, FamilyFacts(rows))
    ensures sets.Keys == Families(rows)
  {
    forall k
      ensures k in sets <==> k in Families(rows)
    {
      if k in sets {
        var v :| v in sets[k];
        assert (k, v) in FamilyFacts(rows);
      }
      if k in Families(rows) {
        var r :| r in rows && r.familyId == k;
        assert (k, r.groupId) in FamilyFacts(rows);
      }
    }
  }

  lemma {:induction false} GroupKeys(rows: seq<ControlRow>, sets: map<Id, set<Partition>>)
    requires FilesFacts(sets, SplitFacts(rows))
    ensures sets.Keys == Groups(rows)
  {
    forall k
      ensures k in sets <==> k in Groups(rows)
    {
      if k in sets {
        var v :| v in sets[k];
        assert (k, v) in SplitFacts(rows);
      }
      if k in Groups(rows) {
        var r :| r in rows && r.groupId == k;
        assert (k, r.split) in SplitFacts(rows);
      }
    }
  }

  // ---- the validator ----

  function Ids(rows: seq<ControlRow>): seq<Id> { seq(|rows|, k requires 0 <= k < |rows| => rows[k].controlId) }

  /** No count above one, exactly when no identifier repeats. */
  lemma {:induction false} CountsTellDuplicates(rows: seq<ControlRow>)
    ensures (forall x | x in multiset(Ids(rows)) :: multiset(Ids(rows))[x] <= 1) <==> DistinctIds(rows)
  {
    var ids := Ids(rows);
    if !DistinctIds(rows) {
      var i, j :| 0 <= i < j < |rows| && rows[i].controlId == rows[j].controlId;
      Dictionaries.CountOfRepeat(ids, i, j);
      assert ids[i] in multiset(ids);
    }
    if x :| x in multiset(ids) && multiset(ids)[x] > 1 {
      var i, j := Dictionaries.RepeatOfCount(ids, x);
      assert rows[i].controlId == rows[j].controlId;
    }
  }

  /** `Counter(row.control_id for row in rows)` and the search for a count above one. */
  method IdsRepeat(rows: seq<ControlRow>) returns (repeat: bool)
    ensures repeat <==> !DistinctIds(rows)
  {
    var counts: multiset<Id> := multiset{};
    for i := 0 to |rows|
      invariant counts == multiset(Ids(rows)[..i])
    {
      assert Ids(rows)[..i + 1] == Ids(rows)[..i] + [rows[i].controlId];
      counts := counts + multiset{rows[i].controlId};
    }
    assert Ids(rows)[..|rows|] == Ids(rows);
    CountsTellDuplicates(rows);
    repeat := exists x | x in counts :: counts[x] > 1;
  }

  lemma {:induction false} NextFacts(rows: seq<ControlRow>, i: nat)
    requires i < |rows|
    ensures FamilyFacts(rows[..i + 1]) == FamilyFacts(rows[..i]) + {(rows[i].familyId, rows[i].groupId)}
    ensures EndpointFacts(rows[..i + 1])
            == EndpointFacts(rows[..i]) + {(rows[i].referenceA, rows[i].groupId)} + {(rows[i].referenceB,
              rows[i].groupId)}
    ensures SplitFacts(rows[..i + 1]) == SplitFacts(rows[..i]) + {(rows[i].groupId, rows[i].split)}
  {
    assert rows[..i + 1] == rows[..i] + [rows[i]];
  }

  function Pairs(rows: seq<ControlRow>): set<(Id, Id)> { set r | r in rows :: (r.referenceA, r.referenceB) }

  lemma {:induction false} NextPair(rows: seq<ControlRow>, i: nat)
    requires i < |rows|
    ensures Pairs(rows[..i + 1]) == Pairs(rows[..i]) + {(rows[i].referenceA, rows[i].referenceB)}
    ensures (rows[i].referenceA, rows[i].referenceB) in Pairs(rows[..i]) ==> !DistinctPairs(rows)
    ensures DistinctPairs(rows[..i]) && (rows[i].referenceA, rows[i].referenceB) !in Pairs(rows[..i]) ==>
            DistinctPairs(rows[..i + 1])
  {
    assert rows[..i + 1] == rows[..i] + [rows[i]];
    if (rows[i].referenceA, rows[i].referenceB) in Pairs(rows[..i]) {
      var r :| r in rows[..i] && (r.referenceA, r.referenceB) == (rows[i].referenceA, rows[i].referenceB);
      var k :| 0 <= k < i && rows[k] == r;
      assert SamePair(rows[k], rows[i]);
    } else {
      assert forall k | 0 <= k < i :: rows[k] in rows[..i] && !SamePair(rows[k], rows[i]);
    }
  }

  /** The three dictionaries file exactly the facts of the rows. */
  ghost predicate AreFiled(rows: seq<ControlRow>, families: map<Id, set<Id>>, endpoints: map<Id, set<Id>>,
                           partitions: map<Id, set<Partition>>) {
    && FilesFacts(families, FamilyFacts(rows)) && FilesFacts(endpoints, EndpointFacts(rows))
    && FilesFacts(partitions, SplitFacts(rows))
  }

  lemma {:induction false} NextIsFiled(rows: seq<ControlRow>, i: nat, families: map<Id, set<Id>>,
                                       endpoints: map<Id, set<Id>>, partitions: map<Id, set<Partition>>)
    requires i < |rows| && AreFiled(rows[..i], families, endpoints, partitions)
    ensures var row := rows[i];
            AreFiled(rows[..i + 1], Add(families, row.familyId, row.groupId),
                     Add(Add(endpoints, row.referenceA, row.groupId), row.referenceB, row.groupId),
                     Add(partitions, row.groupId, row.split))
  {
    var row := rows[i];
    NextFacts(rows, i);
    AddFilesFact(families, FamilyFacts(rows[..i]), row.familyId, row.groupId);
    AddFilesFact(endpoints, EndpointFacts(rows[..i]), row.referenceA, row.groupId);
    AddFilesFact(Add(endpoints, row.referenceA, row.groupId),
      EndpointFacts(rows[..i]) + {(row.referenceA, row.groupId)},
                 row.referenceB, row.groupId);
    AddFilesFact(partitions, SplitFacts(rows[..i]), row.groupId, row.split);
  }

  lemma {:induction false} NextGoverned(rows: seq<ControlRow>, i: nat, config: Config)
    requires i < |rows|
    ensures AllGoverned(rows, config) ==> config.governs(rows[i])
    ensures AllGoverned(rows[..i], config) && config.governs(rows[i]) ==> AllGoverned(rows[..i + 1], config)
  {
  }

  lemma {:induction false} NothingIsFiled()
    ensures AreFiled([], map[], map[], map[])
  {
    assert FamilyFacts([]) == {} && EndpointFacts([]) == {} && SplitFacts([]) == {};
  }

  /** The loop over the rows. */
  method FileRows(rows: seq<ControlRow>, config: Config)
    returns (ok: bool, families: map<Id, set<Id>>, endpoints: map<Id, set<Id>>, partitions: map<Id, set<Partition>>)
    ensures ok <==> DistinctPairs(rows) && AllGoverned(rows, config)
    ensures ok ==> AreFiled(rows, families, endpoints, partitions)
  {
    var pairs: set<(Id, Id)> := {};
    families, endpoints, partitions := map[], map[], map[];
    NothingIsFiled();
    for i := 0 to |rows|
      invariant DistinctPairs(rows[..i]) && AllGoverned(rows[..i], config) && pairs == Pairs(rows[..i])
      invariant AreFiled(rows[..i], families, endpoints, partitions)
    {
      var row := rows[i];
      NextPair(rows, i);
      NextIsFiled(rows, i, families, endpoints, partitions);
      NextGoverned(rows, i, config);
      if !config.governs(row) || (row.referenceA, row.referenceB) in pairs {
        return false, families, endpoints, partitions;
      }
      pairs := pairs + {(row.referenceA, row.referenceB)};
      families := Add(families, row.familyId, row.groupId);
      endpoints := Add(Add(endpoints, row.referenceA, row.groupId), row.referenceB, row.groupId);
      partitions := Add(partitions, row.groupId, row.split);
    }
    assert rows[..|rows|] == rows;
    ok := true;
  }

  lemma {:induction false} FiledTellsCrossing(rows: seq<ControlRow>, families: map<Id, set<Id>>,
                                              endpoints: map<Id, set<Id>>, partitions: map<Id, set<Partition>>)
    requires AreFiled(rows, families, endpoints, partitions)
    ensures AllSingle(families) && AllSingle(endpoints) && AllSingle(partitions) <==> NothingCrosses(rows)
    ensures families.Keys == Families(rows) && partitions.Keys == Groups(rows)
  {
    SingleExactlyWhenFunctional(families, FamilyFacts(rows));
    SingleExactlyWhenFunctional(endpoints, EndpointFacts(rows));
    SingleExactlyWhenFunctional(partitions, SplitFacts(rows));
    FamilyKeys(rows, families);
    GroupKeys(rows, partitions);
  }

  /** The comparison with the dealt partitions, and the sets of what occurs. */
  method CompareWithDeal(rows: seq<ControlRow>, expected: map<Id, Partition>)
    returns (frozen: bool, splits: set<Partition>, pairs: set<string>, classes: set<string>)
    requires Groups(rows) <= expected.Keys
    ensures frozen <==> AsDealt(rows, expected)
    ensures splits == Partitions(rows) && pairs == CorpusPairs(rows) && classes == Classes(rows)
  {
    frozen, splits, pairs, classes := true, {}, {}, {};
    for i := 0 to |rows|
      invariant frozen <==> AsDealt(rows[..i], expected)
      invariant splits == Partitions(rows[..i]) && pairs == CorpusPairs(rows[..i]) && classes == Classes(rows[..i])
    {
      var row := rows[i];
      NextRow(rows, i, expected);
      frozen := frozen && row.split == expected[row.groupId];
      splits, pairs, classes := splits + {row.split}, pairs + {row.corpusPair}, classes + {row.relationshipClass};
    }
    assert rows[..|rows|] == rows;
  }

  method DealGroups(groups: set<Id>, config: Config) returns (expected: map<Id, Partition>)
    requires config.Valid()
    ensures expected == GroupSplits(groups, config.digest, config.weights) && expected.Keys == groups
  {
    DealIsWeighted(groups, config.digest, config.weights, Train);
    expected := GroupSplits(groups, config.digest, config.weights);
  }

  lemma {:induction false} FrozenExactlyWhenDealt(rows: seq<ControlRow>, config: Config, expected: map<Id, Partition>)
    requires config.Valid() && |Groups(rows)| == config.groupCount
    requires expected == GroupSplits(Groups(rows), config.digest, config.weights)
    ensures GroupsAreFrozen(rows, config) <==> AsDealt(rows, expected)
  {
  }

  /** `_validate_rows`: the checks as the program makes them, on counts and on the dictionaries, accept exactly the
      tables the specification describes by pairs of rows. */
  method ValidateRows(rows: seq<ControlRow>, config: Config) returns (ok: bool)
    requires config.Valid()
    ensures ok <==> IsAccepted(rows, config)
  {
    if |rows| != config.rowCount {
      return false;
    }
    var repeat := IdsRepeat(rows);
    if repeat {
      return false;
    }
    var filed, families, endpoints, partitions := FileRows(rows, config);
    if !filed {
      return false;
    }
    FiledTellsCrossing(rows, families, endpoints, partitions);
    if !AllSingle(families) || !AllSingle(endpoints) || !AllSingle(partitions) {
      return false;
    }
    if |families.Keys| != config.familyCount || |partitions.Keys| != config.groupCount {
      return false;
    }
    var expected := DealGroups(partitions.Keys, config);
    var frozen, splits, pairs, classes := CompareWithDeal(rows, expected);
    FrozenExactlyWhenDealt(rows, config, expected);
    ok := frozen && splits == {Train, Development, Test} && pairs == config.requiredPairs
      && classes == config.requiredClasses;
  }

  lemma {:induction false} NextRow(rows: seq<ControlRow>, i: nat, splits: map<Id, Partition>)
    requires i < |rows|
    ensures Partitions(rows[..i + 1]) == Partitions(rows[..i]) + {rows[i].split}
    ensures CorpusPairs(rows[..i + 1]) == CorpusPairs(rows[..i]) + {rows[i].corpusPair}
    ensures Classes(rows[..i + 1]) == Classes(rows[..i]) + {rows[i].relationshipClass}
    ensures AsDealt(rows[..i + 1], splits) <==>
              AsDealt(rows[..i], splits) && rows[i].groupId in splits && rows[i].split == splits[rows[i].groupId]
    ensures rows[i].groupId in Groups(rows)
  {
    assert rows[..i + 1] == rows[..i] + [rows[i]];
  }

  // ---- what the local checks come to ----

  /** How two rows may be related: by family, by either reference, or by leakage group. */
  function Ties(rows: seq<ControlRow>): set<GroupRow> {
    set r, i | r in rows && 0 <= i < 4 :: Tie(r, i)
  }

  function Tie(r: ControlRow, i: nat): GroupRow {
    match i
    case 0 => GroupRow("family " + r.familyId, r.controlId, "family")
    case 1 => GroupRow("reference " + r.referenceA, r.controlId, "reference")
    case 2 => GroupRow("reference " + r.referenceB, r.controlId, "reference")
    case _ => GroupRow("group " + r.groupId, r.controlId, "group")
  }

  function GroupOf(rows: seq<ControlRow>): map<Id, Id> {
    if rows == [] then map[] else var n := |rows| - 1; GroupOf(rows[..n])[rows[n].controlId := rows[n].groupId]
  }

  function SplitOf(rows: seq<ControlRow>): map<Id, Partition> {
    if rows == [] then map[] else var n := |rows| - 1; SplitOf(rows[..n])[rows[n].controlId := rows[n].split]
  }

  lemma {:induction false} RowsAreIndexed(rows: seq<ControlRow>, r: ControlRow)
    requires r in rows && DistinctIds(rows)
    ensures r.controlId in GroupOf(rows) && GroupOf(rows)[r.controlId] == r.groupId
    ensures r.controlId in SplitOf(rows) && SplitOf(rows)[r.controlId] == r.split
  {
    var front, last := rows[..|rows| - 1], rows[|rows| - 1];
    assert rows == front + [last];
    if r != last {
      assert r in front;
      assert DistinctIds(front);
      RowsAreIndexed(front, r);
      var k :| 0 <= k < |front| && front[k] == r;
      assert rows[k].controlId != last.controlId;
    }
  }

  lemma {:induction false} TailsAgree(prefix: string, a: string, b: string)
    requires prefix + a == prefix + b
    ensures a == b
  {
    assert a == (prefix + a)[|prefix|..] && b == (prefix + b)[|prefix|..];
  }

  lemma {:induction false} SharedTieMeansSameGroup(rows: seq<ControlRow>, r: ControlRow, s: ControlRow, i: nat, j: nat)
    requires r in rows && s in rows && i < 4 && j < 4 && Tie(r, i).groupId == Tie(s, j).groupId
    requires NothingCrosses(rows)
    ensures r.groupId == s.groupId
  {
    assert Tie(r, i).groupId[0] == Tie(s, j).groupId[0];
    if i == 0 {
      TailsAgree("family ", r.familyId, s.familyId);
      assert (r.familyId, r.groupId) in FamilyFacts(rows) && (s.familyId, s.groupId) in FamilyFacts(rows);
    } else if i == 3 {
      TailsAgree("group ", r.groupId, s.groupId);
    } else {
      var x := if i == 1 then r.referenceA else r.referenceB;
      var y := if j == 1 then s.referenceA else s.referenceB;
      TailsAgree("reference ", x, y);
      assert (x, r.groupId) in EndpointFacts(rows) && (y, s.groupId) in EndpointFacts(rows);
    }
  }

  /** Accepted rows that any chain of shared families, references or leakage groups relates have one leakage group
      and one partition: nothing leaks across the splits, however indirectly. */
  lemma {:induction false} ChainsStayTogether(rows: seq<ControlRow>, config: Config, a: ControlRow, b: ControlRow)
    requires config.Valid() && IsAccepted(rows, config)
    requires a in rows && b in rows && Connected(Ties(rows), a.controlId, b.controlId)
    ensures a.groupId == b.groupId && a.split == b.split
  {
    var groups := GroupOf(rows);
    forall x, y | Linked(Ties(rows), x, y)
      ensures x in groups && y in groups && groups[x] == groups[y]
    {
      LinksStayTogether(rows, x, y);
    }
    var path :| ChainBetween(Ties(rows), path, a.controlId, b.controlId);
    RowsAreIndexed(rows, a);
    RowsAreIndexed(rows, b);
    ConstantAlongChain(Ties(rows), path, groups);
    assert (a.groupId, a.split) in SplitFacts(rows) && (b.groupId, b.split) in SplitFacts(rows);
  }

  lemma {:induction false} TieHasRow(rows: seq<ControlRow>, p: GroupRow) returns (r: ControlRow, i: nat)
    requires p in Ties(rows)
    ensures r in rows && i < 4 && p == Tie(r, i) && p.relationshipId == r.controlId
  {
    r, i :| r in rows && 0 <= i < 4 && p == Tie(r, i);
  }

  lemma {:induction false} LinksStayTogether(rows: seq<ControlRow>, x: Id, y: Id)
    requires DistinctIds(rows)
    requires NothingCrosses(rows) && Linked(Ties(rows), x, y)
    ensures x in GroupOf(rows) && y in GroupOf(rows) && GroupOf(rows)[x] == GroupOf(rows)[y]
  {
    var p, q :| p in Ties(rows) && q in Ties(rows) && p.groupId == q.groupId && p.relationshipId == x
      && q.relationshipId == y;
    var r, i := TieHasRow(rows, p);
    var s, j := TieHasRow(rows, q);
    SharedTieMeansSameGroup(rows, r, s, i, j);
    RowsAreIndexed(rows, r);
    RowsAreIndexed(rows, s);
  }

  /** With as many groups as the configuration demands, the deal itself populates every partition: the check that
      looks for an empty one never fails once the splits are as dealt. */
  lemma {:induction false} FrozenGroupsArePopulated(rows: seq<ControlRow>, config: Config)
    requires config.Valid() && GroupsAreFrozen(rows, config)
    ensures Populated(rows)
  {
    var groups := Groups(rows);
    var splits := GroupSplits(groups, config.digest, config.weights);
    DealNeverExcludes(groups, config, splits);
    HasRowIn(rows, config, Train);
    HasRowIn(rows, config, Development);
    HasRowIn(rows, config, Test);
    var found := Partitions(rows);
    assert Excluded !in found;
    assert found == {Train, Development, Test};
  }

  lemma {:induction false} HasRowIn(rows: seq<ControlRow>, config: Config, p: Partition)
    requires config.Valid() && GroupsAreFrozen(rows, config) && p != Excluded
    ensures p in Partitions(rows)
  {
    var g := FullRoundPopulates(Groups(rows), config.digest, config.weights, p);
    var r :| r in rows && r.groupId == g;
    assert r in rows && r.split == p;
  }

  lemma {:induction false} DealNeverExcludes(groups: set<Id>, config: Config, splits: map<Id, Partition>)
    requires config.Valid() && splits == GroupSplits(groups, config.digest, config.weights)
    ensures forall g | g in splits :: splits[g] != Excluded
  {
    DealIsWeighted(groups, config.digest, config.weights, Excluded);
    assert Share(config.weights, |groups|, Excluded) == 0;
    assert GroupsIn(splits, Excluded) == {};
    forall g | g in splits
      ensures splits[g] != Excluded
    {
      assert g !in GroupsIn(splits, Excluded);
    }
  }
}
