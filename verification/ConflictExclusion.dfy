/** Conflict exclusion of src/echoes/benchmarks/pipeline.py: every eligible member of a configured group
    that crosses partitions is excluded, without closing groups transitively. */
module ConflictExclusion {
  import opened Wrappers
  import opened Ordering
  import opened BenchmarkRows

  /** A group as the relational plan keys it: its type and its identifier. */
  type TypedGroup = (string, Id)

  const PARTITION_CONFLICT: string := "leakage_group_partition_conflict:"

  predicate TypedAtMost(a: TypedGroup, b: TypedGroup) {
    Less(a.0, b.0) || (a.0 == b.0 && AtMost(a.1, b.1))
  }

  predicate EligibleIn(assignments: seq<AssignmentRow>, x: Id, p: Partition) {
    && p != Excluded
    && exists k :: 0 <= k < |assignments| && assignments[k].relationshipId == x && assignments[k].partition == p
  }

  predicate Eligible(assignments: seq<AssignmentRow>, x: Id) {
    exists k :: 0 <= k < |assignments| && assignments[k].relationshipId == x && assignments[k].partition != Excluded
  }

  predicate Member(groups: seq<GroupRow>, types: set<string>, key: TypedGroup, x: Id) {
    key.0 in types && GroupRow(key.1, x, key.0) in groups
  }

  /** The group has eligible members in two partitions. */
  predicate Crossing(assignments: seq<AssignmentRow>, groups: seq<GroupRow>, types: set<string>, key: TypedGroup) {
    exists a, b, p, q | a in groups && b in groups && p in {Train, Development, Test}
      && q in {Train, Development, Test} ::
      && Member(groups, types, key, a.relationshipId) && Member(groups, types, key, b.relationshipId)
      && p != q && EligibleIn(assignments, a.relationshipId, p) && EligibleIn(assignments, b.relationshipId, q)
  }

  predicate ConflictsVia(assignments: seq<AssignmentRow>, groups: seq<GroupRow>, types: set<string>, x: Id,
                         key: TypedGroup) {
    Eligible(assignments, x) && Member(groups, types, key, x) && Crossing(assignments, groups, types, key)
  }

  /** The least conflicting group of a relationship among the given rows, by type and then identifier. */
  function FirstConflict(rest: seq<GroupRow>, assignments: seq<AssignmentRow>, groups: seq<GroupRow>,
                         types: set<string>, x: Id): (r: Option<TypedGroup>)
  {
    if rest == [] then None
    else
      var key := (rest[0].groupType, rest[0].groupId);
      var later := FirstConflict(rest[1..], assignments, groups, types, x);
      if rest[0].relationshipId != x || !ConflictsVia(assignments, groups, types, x, key) then later
      else if later.Some? && !TypedAtMost(key, later.value) then later
      else Some(key)
  }

  function ExcludeRow(row: AssignmentRow, conflict: Option<TypedGroup>): AssignmentRow {
    match conflict
    case None => row
    case Some((groupType, groupId)) =>
      row.(partition := Excluded, leakageGroupId := Some(groupId), eligible := false,
           exclusionReason := Some(PARTITION_CONFLICT + groupType))
  }

  function ExcludeConflicts(assignments: seq<AssignmentRow>, groups: seq<GroupRow>, types: set<string>)
    : (r: seq<AssignmentRow>)
    ensures |r| == |assignments|
  {
    seq(|assignments|, k requires 0 <= k < |assignments| =>
      ExcludeRow(assignments[k], FirstConflict(groups, assignments, groups, types, assignments[k].relationshipId)))
  }

  lemma {:induction false} CrossingIntro(assignments: seq<AssignmentRow>, groups: seq<GroupRow>, types: set<string>,
                                         key: TypedGroup, x: Id, y: Id, p: Partition, q: Partition)
    requires Member(groups, types, key, x) && Member(groups, types, key, y)
    requires p != q && EligibleIn(assignments, x, p) && EligibleIn(assignments, y, q)
    ensures Crossing(assignments, groups, types, key)
  {
    var a, b := GroupRow(key.1, x, key.0), GroupRow(key.1, y, key.0);
    assert a in groups && b in groups && p in {Train, Development, Test} && q in {Train, Development, Test};
    assert Member(groups, types, key, a.relationshipId) && Member(groups, types, key, b.relationshipId);
  }

  lemma {:induction false} CrossingElim(assignments: seq<AssignmentRow>, groups: seq<GroupRow>, types: set<string>,
                                        key: TypedGroup)
    returns (x: Id, y: Id, p: Partition, q: Partition)
    requires Crossing(assignments, groups, types, key)
    ensures Member(groups, types, key, x) && Member(groups, types, key, y)
    ensures p != q && EligibleIn(assignments, x, p) && EligibleIn(assignments, y, q)
  {
    var a, b, s, t :| a in groups && b in groups && s in {Train, Development, Test} && t in {Train, Development, Test}
      && Member(groups, types, key, a.relationshipId) && Member(groups, types, key, b.relationshipId)
      && s != t && EligibleIn(assignments, a.relationshipId, s) && EligibleIn(assignments, b.relationshipId, t);
    x, y, p, q := a.relationshipId, b.relationshipId, s, t;
  }

  // ----- Which group is named -----

  lemma {:induction false} TypedOrderIsTotal(a: TypedGroup, b: TypedGroup)
    ensures TypedAtMost(a, b) || TypedAtMost(b, a)
  {
    LessIsTotal(a.0, b.0);
    LessIsTotal(a.1, b.1);
  }

  lemma {:induction false} TypedOrderIsTransitive(a: TypedGroup, b: TypedGroup, c: TypedGroup)
    requires TypedAtMost(a, b) && TypedAtMost(b, c)
    ensures TypedAtMost(a, c)
  {
    LessIsIrreflexive(a.0);
    if Less(a.0, b.0) && Less(b.0, c.0) { LessIsTransitive(a.0, b.0, c.0); }
    if a.0 == b.0 == c.0 { AtMostIsTransitive(a.1, b.1, c.1); }
  }

  lemma {:induction false} FirstConflictWithin(rest: seq<GroupRow>, assignments: seq<AssignmentRow>,
                                               groups: seq<GroupRow>, types: set<string>, x: Id)
    ensures var r := FirstConflict(rest, assignments, groups, types, x);
            && (r.Some? ==> ConflictsVia(assignments, groups, types, x, r.value))
            && forall key: TypedGroup ::
                 GroupRow(key.1, x, key.0) in rest && ConflictsVia(assignments, groups, types, x, key) ==>
                 r.Some? && TypedAtMost(r.value, key)
  {
    if rest != [] {
      FirstConflictWithin(rest[1..], assignments, groups, types, x);
      assert rest == [rest[0]] + rest[1..];
      var r := FirstConflict(rest, assignments, groups, types, x);
      var later := FirstConflict(rest[1..], assignments, groups, types, x);
      forall key: TypedGroup | GroupRow(key.1, x, key.0) in rest && ConflictsVia(assignments, groups, types, x, key)
        ensures r.Some? && TypedAtMost(r.value, key)
      {
        var head := (rest[0].groupType, rest[0].groupId);
        if later.Some? {
          TypedOrderIsTotal(head, later.value);
          TypedOrderIsTotal(later.value, later.value);
        }
        if GroupRow(key.1, x, key.0) in rest[1..] {
          assert TypedAtMost(later.value, key);
          TypedOrderIsTransitive(r.value, later.value, key);
        }
      }
    }
  }

  /** The group written on an excluded row is the least configured crossing group the relationship is in, and
      one is written exactly when there is one. */
  lemma {:induction false} ConflictIsLeastCrossingGroup(assignments: seq<AssignmentRow>, groups: seq<GroupRow>,
                                                        types: set<string>, x: Id)
    ensures var r := FirstConflict(groups, assignments, groups, types, x);
            && (r.Some? <==> exists key: TypedGroup :: ConflictsVia(assignments, groups, types, x, key))
            && (r.Some? ==>
                  && ConflictsVia(assignments, groups, types, x, r.value)
                  && forall key: TypedGroup :: ConflictsVia(assignments, groups, types, x, key) ==>
                    TypedAtMost(r.value, key))
  {
    FirstConflictWithin(groups, assignments, groups, types, x);
  }

  // ----- What the pass achieves -----

  ghost predicate Separated(assignments: seq<AssignmentRow>, groups: seq<GroupRow>, types: set<string>) {
    forall key: TypedGroup :: !Crossing(assignments, groups, types, key)
  }

  ghost predicate UniqueRows(assignments: seq<AssignmentRow>) {
    forall i, j :: 0 <= i < j < |assignments| ==> assignments[i].relationshipId != assignments[j].relationshipId
  }

  /** Rows still eligible afterwards were untouched. */
  lemma {:induction false} EligibleAfterWasUntouched(assignments: seq<AssignmentRow>, groups: seq<GroupRow>,
                                                     types: set<string>, x: Id, p: Partition)
    requires EligibleIn(ExcludeConflicts(assignments, groups, types), x, p)
    ensures EligibleIn(assignments, x, p) && FirstConflict(groups, assignments, groups, types, x).None?
  {
    var after := ExcludeConflicts(assignments, groups, types);
    var k :| 0 <= k < |after| && after[k].relationshipId == x && after[k].partition == p;
    assert assignments[k].relationshipId == x;
  }

  /** After the pass no configured group has eligible members in two partitions. */
  lemma {:induction false} ExclusionSeparates(assignments: seq<AssignmentRow>, groups: seq<GroupRow>,
                                              types: set<string>)
    ensures Separated(ExcludeConflicts(assignments, groups, types), groups, types)
  {
    var after := ExcludeConflicts(assignments, groups, types);
    if key: TypedGroup :| Crossing(after, groups, types, key) {
      var x, y, p, q := CrossingElim(after, groups, types, key);
      EligibleAfterWasUntouched(assignments, groups, types, x, p);
      EligibleAfterWasUntouched(assignments, groups, types, y, q);
      CrossingIntro(assignments, groups, types, key, x, y, p, q);
      assert ConflictsVia(assignments, groups, types, x, key);
      ConflictIsLeastCrossingGroup(assignments, groups, types, x);
    }
  }

  /** The pass leaves an assignment alone exactly when nothing crosses. */
  lemma {:induction false} FixedExactlyWhenSeparated(assignments: seq<AssignmentRow>, groups: seq<GroupRow>,
                                                     types: set<string>)
    ensures ExcludeConflicts(assignments, groups, types) == assignments <==> Separated(assignments, groups, types)
  {
    if Separated(assignments, groups, types) {
      forall k | 0 <= k < |assignments|
        ensures FirstConflict(groups, assignments, groups, types, assignments[k].relationshipId).None?
      {
        ConflictIsLeastCrossingGroup(assignments, groups, types, assignments[k].relationshipId);
      }
    }
    if ExcludeConflicts(assignments, groups, types) == assignments {
      ExclusionSeparates(assignments, groups, types);
    }
  }

  /** A second pass changes nothing. */
  lemma {:induction false} ExclusionIsIdempotent(assignments: seq<AssignmentRow>, groups: seq<GroupRow>,
                                                 types: set<string>)
    ensures var once := ExcludeConflicts(assignments, groups, types); ExcludeConflicts(once, groups, types) == once
  {
    ExclusionSeparates(assignments, groups, types);
    FixedExactlyWhenSeparated(ExcludeConflicts(assignments, groups, types), groups, types);
  }

  /** With one row per relationship, a row changes exactly when it was eligible and in a crossing group. */
  lemma {:induction false} RowChangesExactlyWhenConflicting(assignments: seq<AssignmentRow>, groups: seq<GroupRow>,
                                                            types: set<string>, k: nat)
    requires UniqueRows(assignments) && k < |assignments|
    ensures ExcludeConflicts(assignments, groups, types)[k] != assignments[k] <==>
              && assignments[k].partition != Excluded
              && exists key: TypedGroup ::
                   Member(groups, types, key, assignments[k].relationshipId)
                     && Crossing(assignments, groups, types, key)
  {
    var x := assignments[k].relationshipId;
    ConflictIsLeastCrossingGroup(assignments, groups, types, x);
    if assignments[k].partition != Excluded {
      assert Eligible(assignments, x);
      if key: TypedGroup :| Member(groups, types, key, x) && Crossing(assignments, groups, types, key) {
        assert ConflictsVia(assignments, groups, types, x, key);
      }
    }
  }

  // ----- The same of the rows alone -----

  /** Two placed members of the group are in different partitions. */
  ghost predicate IsSplit(assignments: seq<AssignmentRow>, groups: seq<GroupRow>, groupType: string, groupId: Id) {
    exists i, j ::
      && 0 <= i < |assignments| && 0 <= j < |assignments|
      && GroupRow(groupId, assignments[i].relationshipId, groupType) in groups
      && GroupRow(groupId, assignments[j].relationshipId, groupType) in groups
      && assignments[i].partition != Excluded && assignments[j].partition != Excluded
      && assignments[i].partition != assignments[j].partition
  }

  /** The relationship is in such a group, of a configured type. */
  ghost predicate IsInSplitGroup(assignments: seq<AssignmentRow>, groups: seq<GroupRow>, types: set<string>, x: Id,
                                 groupType: string, groupId: Id) {
    groupType in types && GroupRow(groupId, x, groupType) in groups && IsSplit(assignments, groups, groupType, groupId)
  }

  ghost predicate SomeGroupIsSplit(assignments: seq<AssignmentRow>, groups: seq<GroupRow>, types: set<string>, x: Id) {
    exists groupType, groupId :: IsInSplitGroup(assignments, groups, types, x, groupType, groupId)
  }

  lemma {:induction false} SplitMeansCrossing(assignments: seq<AssignmentRow>, groups: seq<GroupRow>,
                                              types: set<string>, key: TypedGroup)
    requires key.0 in types
    ensures IsSplit(assignments, groups, key.0, key.1) <==> Crossing(assignments, groups, types, key)
  {
    if IsSplit(assignments, groups, key.0, key.1) {
      var i, j :|
        && 0 <= i < |assignments| && 0 <= j < |assignments|
        && GroupRow(key.1, assignments[i].relationshipId, key.0) in groups
        && GroupRow(key.1, assignments[j].relationshipId, key.0) in groups
        && assignments[i].partition != Excluded && assignments[j].partition != Excluded
        && assignments[i].partition != assignments[j].partition;
      CrossingIntro(assignments, groups, types, key, assignments[i].relationshipId, assignments[j].relationshipId,
        assignments[i].partition, assignments[j].partition);
    }
    if Crossing(assignments, groups, types, key) {
      var x, y, p, q := CrossingElim(assignments, groups, types, key);
      var i :| 0 <= i < |assignments| && assignments[i].relationshipId == x && assignments[i].partition == p;
      var j :| 0 <= j < |assignments| && assignments[j].relationshipId == y && assignments[j].partition == q;
    }
  }

  lemma {:induction false} ConflictMeansSplit(assignments: seq<AssignmentRow>, groups: seq<GroupRow>,
                                              types: set<string>, k: nat, key: TypedGroup)
    requires k < |assignments| && assignments[k].partition != Excluded
    ensures ConflictsVia(assignments, groups, types, assignments[k].relationshipId, key) <==>
              IsInSplitGroup(assignments, groups, types, assignments[k].relationshipId, key.0, key.1)
  {
    if key.0 in types { SplitMeansCrossing(assignments, groups, types, key); }
  }

  /** A row is excluded afterwards exactly when it was before, or its relationship is in a split group. */
  lemma {:induction false} ExcludedExactlyWhenSplit(assignments: seq<AssignmentRow>, groups: seq<GroupRow>,
                                                    types: set<string>, k: nat)
    requires k < |assignments|
    ensures ExcludeConflicts(assignments, groups, types)[k].partition == Excluded <==>
              || assignments[k].partition == Excluded
              || SomeGroupIsSplit(assignments, groups, types, assignments[k].relationshipId)
  {
    var x := assignments[k].relationshipId;
    ConflictIsLeastCrossingGroup(assignments, groups, types, x);
    if assignments[k].partition != Excluded {
      forall key: TypedGroup
        ensures ConflictsVia(assignments, groups, types, x, key) <==>
                  IsInSplitGroup(assignments, groups, types, x, key.0, key.1)
      {
        ConflictMeansSplit(assignments, groups, types, k, key);
      }
      if groupType, groupId :| IsInSplitGroup(assignments, groups, types, x, groupType, groupId) {
        var key: TypedGroup := (groupType, groupId);
        assert ConflictsVia(assignments, groups, types, x, key);
      }
    }
  }

  /** And then it names the least such group by type and identifier, is no longer eligible, and gives the type in its
      reason; any other row that was placed stays as it was. */
  lemma {:induction false} ExcludedRowNamesItsGroup(assignments: seq<AssignmentRow>, groups: seq<GroupRow>,
                                                    types: set<string>, k: nat)
    requires k < |assignments| && assignments[k].partition != Excluded
    ensures var x := assignments[k].relationshipId; var row := ExcludeConflicts(assignments, groups, types)[k];
            if SomeGroupIsSplit(assignments, groups, types, x) then
              exists groupType, groupId ::
                && IsInSplitGroup(assignments, groups, types, x, groupType, groupId)
                && row == AssignmentRow(x, Excluded, Some(groupId), false,
                                        Some("leakage_group_partition_conflict:" + groupType))
                && forall t, g :: IsInSplitGroup(assignments, groups, types, x, t, g) ==>
                     Less(groupType, t) || (groupType == t && AtMost(groupId, g))
            else row == assignments[k]
  {
    var x := assignments[k].relationshipId;
    ConflictIsLeastCrossingGroup(assignments, groups, types, x);
    forall t, g
      ensures var key: TypedGroup := (t, g);
              ConflictsVia(assignments, groups, types, x, key) <==> IsInSplitGroup(assignments, groups, types, x, t, g)
    {
      ConflictMeansSplit(assignments, groups, types, k, (t, g));
    }
    var r := FirstConflict(groups, assignments, groups, types, x);
    if r.Some? {
      forall t, g | IsInSplitGroup(assignments, groups, types, x, t, g)
        ensures Less(r.value.0, t) || (r.value.0 == t && AtMost(r.value.1, g))
      {
        var key: TypedGroup := (t, g);
        assert ConflictsVia(assignments, groups, types, x, key);
      }
      assert ConflictsVia(assignments, groups, types, x, (r.value.0, r.value.1));
    }
  }
}
