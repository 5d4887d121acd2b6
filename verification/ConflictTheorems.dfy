/** How conflict exclusion (src/echoes/benchmarks/pipeline.py) relates to the leakage report and to the
    union-find assignment (src/echoes/benchmarks/splits.py). */
module ConflictTheorems {
  import opened Wrappers
  import opened Ordering
  import opened BenchmarkRows
  import opened Connectivity
  import opened Dictionaries
  import opened Splits
  import opened SplitViolations
  import opened SplitTheorems
  import opened ConflictExclusion

  /** With one row per relationship the partition dictionary is the rows themselves. */
  lemma {:induction false} PartitionsOfUniqueRows(assignments: seq<AssignmentRow>, x: Id, p: Partition)
    requires UniqueRows(assignments)
    ensures EligibleIn(assignments, x, p) <==> x in PartitionsOf(assignments) && PartitionsOf(assignments)[x] == p
  {
    if assignments != [] {
      var last := assignments[|assignments| - 1];
      var before := assignments[..|assignments| - 1];
      PartitionsOfUniqueRows(before, x, p);
      assert assignments == before + [last];
      EligibleInEither(before, last, x, p);
      if EligibleIn(before, x, p) { EligibleHasOtherId(before, last, x, p); }
    }
  }

  lemma {:induction false} EligibleInEither(before: seq<AssignmentRow>, last: AssignmentRow, x: Id, p: Partition)
    ensures EligibleIn(before + [last], x, p) <==>
              EligibleIn(before, x, p) || (p != Excluded && last.relationshipId == x && last.partition == p)
  {
    var all := before + [last];
    assert all[|before|] == last;
    if EligibleIn(before, x, p) {
      var k :| 0 <= k < |before| && before[k].relationshipId == x && before[k].partition == p;
      assert all[k] == before[k];
    }
  }

  lemma {:induction false} EligibleHasOtherId(before: seq<AssignmentRow>, last: AssignmentRow, x: Id, p: Partition)
    requires UniqueRows(before + [last]) && EligibleIn(before, x, p)
    ensures last.relationshipId != x
  {
    var all := before + [last];
    var k :| 0 <= k < |before| && before[k].relationshipId == x && before[k].partition == p;
    assert all[k] == before[k] && all[|before|] == last;
  }

  ghost predicate Reported(assignments: seq<AssignmentRow>, groups: seq<GroupRow>, types: set<string>) {
    exists g :: Crosses(PartitionsOf(assignments), Elements(groups), types, g)
  }

  ghost predicate TypedTogether(groups: seq<GroupRow>, types: set<string>, x: Id, y: Id) {
    exists key: TypedGroup :: Member(groups, types, key, x) && Member(groups, types, key, y)
  }

  /** Relationships listed under one identifier also meet in one typed group.  It can only fail when an
      identifier is used with two group types. */
  ghost predicate IdentifiersRespectTypes(groups: seq<GroupRow>, types: set<string>) {
    forall p, q | p in groups && q in groups && p.groupType in types && q.groupType in types
      && p.groupId == q.groupId && p.relationshipId != q.relationshipId ::
        TypedTogether(groups, types, p.relationshipId, q.relationshipId)
  }

  lemma {:induction false} CrossingIsReported(assignments: seq<AssignmentRow>, groups: seq<GroupRow>,
                                              types: set<string>, key: TypedGroup)
    requires UniqueRows(assignments) && Crossing(assignments, groups, types, key)
    ensures Reported(assignments, groups, types)
  {
    var x, y, p, q := CrossingElim(assignments, groups, types, key);
    PartitionsOfUniqueRows(assignments, x, p);
    PartitionsOfUniqueRows(assignments, y, q);
    var partitions := PartitionsOf(assignments);
    var rowA, rowB := GroupRow(key.1, x, key.0), GroupRow(key.1, y, key.0);
    assert rowA in Elements(groups) && rowB in Elements(groups);
    assert Placed(partitions, rowA, types) && Placed(partitions, rowB, types);
    assert Crosses(partitions, Elements(groups), types, key.1);
  }

  lemma {:induction false} ReportedIsCrossing(assignments: seq<AssignmentRow>, groups: seq<GroupRow>,
                                              types: set<string>)
    requires UniqueRows(assignments) && IdentifiersRespectTypes(groups, types) && Reported(assignments, groups, types)
    ensures !Separated(assignments, groups, types)
  {
    var partitions := PartitionsOf(assignments);
    var g :| Crosses(partitions, Elements(groups), types, g);
    var a, b :| a in Elements(groups) && b in Elements(groups) && a.groupId == g && b.groupId == g &&
      Placed(partitions, a, types) && Placed(partitions, b, types) &&
      partitions[a.relationshipId] != partitions[b.relationshipId];
    var x, y := a.relationshipId, b.relationshipId;
    assert TypedTogether(groups, types, x, y);
    var key: TypedGroup :| Member(groups, types, key, x) && Member(groups, types, key, y);
    PartitionsOfUniqueRows(assignments, x, partitions[x]);
    PartitionsOfUniqueRows(assignments, y, partitions[y]);
    CrossingIntro(assignments, groups, types, key, x, y, partitions[x], partitions[y]);
  }

  ghost function OneRow(x: Id, p: Partition): AssignmentRow {
    AssignmentRow(x, p, None, true, None)
  }

  /** Two relationships that share an identifier but no typed group: one trains, one tests, the exclusion
      pass sees no conflict and the report does. */
  lemma {:induction false} UntypedShareEscapesExclusion(groups: seq<GroupRow>, types: set<string>, p: GroupRow,
                                                        q: GroupRow)
    requires p in groups && q in groups && p.groupType in types && q.groupType in types
    requires p.groupId == q.groupId && p.relationshipId != q.relationshipId
    requires !TypedTogether(groups, types, p.relationshipId, q.relationshipId)
    ensures var rows := [OneRow(p.relationshipId, Train), OneRow(q.relationshipId, Test)];
            UniqueRows(rows) && ExcludeConflicts(rows, groups, types) == rows && Reported(rows, groups, types)
  {
    var rows := [OneRow(p.relationshipId, Train), OneRow(q.relationshipId, Test)];
    if key: TypedGroup :| Crossing(rows, groups, types, key) {
      TwoRowsCrossTogether(groups, types, p.relationshipId, q.relationshipId, key);
    }
    FixedExactlyWhenSeparated(rows, groups, types);
    TwoRowsPlace(p.relationshipId, q.relationshipId, p.relationshipId, Train);
    TwoRowsPlace(p.relationshipId, q.relationshipId, q.relationshipId, Test);
    PartitionsOfUniqueRows(rows, p.relationshipId, Train);
    PartitionsOfUniqueRows(rows, q.relationshipId, Test);
    assert p in Elements(groups) && q in Elements(groups);
    assert Crosses(PartitionsOf(rows), Elements(groups), types, p.groupId);
  }

  lemma {:induction false} TwoRowsCrossTogether(groups: seq<GroupRow>, types: set<string>, x: Id, y: Id,
                                                key: TypedGroup)
    requires Crossing([OneRow(x, Train), OneRow(y, Test)], groups, types, key)
    ensures TypedTogether(groups, types, x, y)
  {
    var a, b, s, t := CrossingElim([OneRow(x, Train), OneRow(y, Test)], groups, types, key);
    TwoRowsPlace(x, y, a, s);
    TwoRowsPlace(x, y, b, t);
  }

  lemma {:induction false} TwoRowsPlace(x: Id, y: Id, z: Id, p: Partition)
    ensures EligibleIn([OneRow(x, Train), OneRow(y, Test)], z, p) <==> (z == x && p == Train) || (z == y && p == Test)
  {
    var rows := [OneRow(x, Train), OneRow(y, Test)];
    assert rows[0] == OneRow(x, Train) && rows[1] == OneRow(y, Test);
  }

  /** The fixed points of exclusion are the assignments the leakage report passes, for every assignment with
      one row per relationship, exactly when identifiers respect group types. */
  lemma {:induction false} FixedPointsMeetTheReport(groups: seq<GroupRow>, types: set<string>)
    ensures IdentifiersRespectTypes(groups, types) <==>
              forall rows: seq<AssignmentRow> :: UniqueRows(rows) ==>
                (ExcludeConflicts(rows, groups, types) == rows <==> !Reported(rows, groups, types))
  {
    if IdentifiersRespectTypes(groups, types) {
      forall rows: seq<AssignmentRow> | UniqueRows(rows)
        ensures ExcludeConflicts(rows, groups, types) == rows <==> !Reported(rows, groups, types)
      {
        FixedExactlyWhenSeparated(rows, groups, types);
        if Reported(rows, groups, types) {
          ReportedIsCrossing(rows, groups, types);
        }
        if key: TypedGroup :| Crossing(rows, groups, types, key) {
          CrossingIsReported(rows, groups, types, key);
        }
      }
    } else {
      var p, q :| p in groups && q in groups && p.groupType in types && q.groupType in types
        && p.groupId == q.groupId && p.relationshipId != q.relationshipId
        && !TypedTogether(groups, types, p.relationshipId, q.relationshipId);
      UntypedShareEscapesExclusion(groups, types, p, q);
    }
  }

  /** Identifiers that are digests over the group type respect types, since the type can be read off them. */
  lemma {:induction false} TypedIdentifiersRespectTypes(groups: seq<GroupRow>, types: set<string>, typeOf: Id -> string)
    requires forall g | g in groups :: typeOf(g.groupId) == g.groupType
    ensures IdentifiersRespectTypes(groups, types)
  {
    forall p, q | p in groups && q in groups && p.groupType in types && q.groupType in types
      && p.groupId == q.groupId && p.relationshipId != q.relationshipId
      ensures TypedTogether(groups, types, p.relationshipId, q.relationshipId)
    {
      var key := (p.groupType, p.groupId);
      assert Member(groups, types, key, p.relationshipId) && Member(groups, types, key, q.relationshipId);
    }
  }

  /** Then the fixed points of exclusion are exactly the assignments the report passes, without a condition. */
  lemma {:induction false} TypedFixedPointsMeetTheReport(groups: seq<GroupRow>, types: set<string>,
                                                         typeOf: Id -> string, rows: seq<AssignmentRow>)
    requires (forall g | g in groups :: typeOf(g.groupId) == g.groupType) && UniqueRows(rows)
    ensures ExcludeConflicts(rows, groups, types) == rows <==> !Reported(rows, groups, types)
  {
    TypedIdentifiersRespectTypes(groups, types, typeOf);
    FixedPointsMeetTheReport(groups, types);
  }

  /** What would happen if one identifier served two types: these two rows, and no others, are enough. */
  lemma {:induction false} SharedIdentifierEscapesExclusion()
    ensures var groups := [GroupRow("g", "a", Name(UnorderedPair)), GroupRow("g", "b", Name(SharedEndpoint))];
            var types := {Name(UnorderedPair), Name(SharedEndpoint)};
            var rows := [OneRow("a", Train), OneRow("b", Test)];
            UniqueRows(rows) && ExcludeConflicts(rows, groups, types) == rows && Reported(rows, groups, types)
  {
    var p, q := GroupRow("g", "a", Name(UnorderedPair)), GroupRow("g", "b", Name(SharedEndpoint));
    var groups, types := [p, q], {p.groupType, q.groupType};
    assert p.relationshipId != q.relationshipId;
    if TypedTogether(groups, types, "a", "b") {
      var key: TypedGroup :| Member(groups, types, key, "a") && Member(groups, types, key, "b");
      OnlyRowOf(p, q, key);
    }
    UntypedShareEscapesExclusion(groups, types, p, q);
  }

  /** Two rows of one group and two relationships under two types share no typed group. */
  lemma {:induction false} OnlyRowOf(p: GroupRow, q: GroupRow, key: TypedGroup)
    requires p.groupType == Name(UnorderedPair) && q.groupType == Name(SharedEndpoint)
    requires p.relationshipId != q.relationshipId
    ensures !(GroupRow(key.1, p.relationshipId, key.0) in [p, q] && GroupRow(key.1, q.relationshipId, key.0) in [p, q])
  {
    if Name(UnorderedPair) == Name(SharedEndpoint) { NamesDiffer(UnorderedPair, SharedEndpoint); }
  }

  lemma {:induction false} SplitPlacesBySpecification(assignments: seq<AssignmentRow>, byId: Index, rows: set<GroupRow>,
                                                      definition: SplitDefinition, x: Id, p: Partition)
    requires ExpectedRows(assignments, byId, rows, definition) && EligibleIn(assignments, x, p)
    ensures x in byId && ExpectedRow(byId, rows, definition, x).partition == p
  {
    EnumerationCovers(byId.Keys);
  }

  /** Exclusion is a no-op on what the union-find assignment produces for the group types it enforces. */
  lemma {:induction false} ExclusionKeepsUnionFindSplits(relationships: seq<SplitRelationship>, groups: seq<GroupRow>,
                                                         definition: SplitDefinition, assignments: seq<AssignmentRow>)
    requires IsSplitResult(Success(assignments), relationships, groups, definition)
    ensures ExcludeConflicts(assignments, groups, EffectiveGroupTypes(definition)) == assignments
  {
    var types := EffectiveGroupTypes(definition);
    var byId := IndexOn(relationships, RelationshipKey());
    IndexIsExact(relationships);
    var rows := Enforced(Elements(groups), types, byId.Keys);
    if key: TypedGroup :| Crossing(assignments, groups, types, key) {
      var x, y, p, q := CrossingElim(assignments, groups, types, key);
      SplitPlacesBySpecification(assignments, byId, rows, definition, x, p);
      SplitPlacesBySpecification(assignments, byId, rows, definition, y, q);
      assert GroupRow(key.1, x, key.0) in rows && GroupRow(key.1, y, key.0) in rows;
      assert Linked(rows, x, y);
      LinkedIsConnected(rows, x, y);
      ConnectedSharePartition(byId, rows, definition, x, y);
    }
    FixedExactlyWhenSeparated(assignments, groups, types);
  }
}
