/** What the split stage promises, proved about the specification its methods meet. */
module SplitTheorems {
  import opened Wrappers
  import opened Ordering
  import opened BenchmarkRows
  import opened Connectivity
  import opened DisjointSets
  import opened Dictionaries
  import opened Splits
  import opened SplitViolations
  import Text

  /** Every root is the least identifier of its component. */
  lemma {:induction false} RootIsLeastOfComponent(c: map<Id, Id>, ids: seq<Id>, rows: set<GroupRow>, x: Id)
    requires LeastLabels(c) && LabelsConnect(c, ids, rows) && x in ids
    ensures x in c && IsLeast(c[x], Component(Elements(ids), rows, x))
  {
    assert LabelsItself(c, x);
    assert c[x] in ids;
    forall y | y in Component(Elements(ids), rows, x) ensures AtMost(c[x], y) {
      assert LabelsItself(c, y) && c[y] == c[x];
    }
  }

  lemma {:induction false} ComponentsCoincide(ids: set<Id>, rows: set<GroupRow>, x: Id, y: Id)
    requires Connected(rows, x, y)
    ensures Component(ids, rows, x) == Component(ids, rows, y)
  {
    ConnectedSymmetric(rows, x, y);
    forall z | z in ids ensures Connected(rows, x, z) <==> Connected(rows, y, z) {
      if Connected(rows, x, z) { ConnectedTransitive(rows, y, x, z); }
      if Connected(rows, y, z) { ConnectedTransitive(rows, x, y, z); }
    }
  }

  /** Connected relationships share their partition. */
  lemma {:induction false} ConnectedSharePartition(byId: Index, rows: set<GroupRow>, definition: SplitDefinition, x: Id,
                                                   y: Id)
    requires x in byId && y in byId && Connected(rows, x, y)
    ensures ExpectedRow(byId, rows, definition, x).partition == ExpectedRow(byId, rows, definition, y).partition
  {
    ComponentsCoincide(byId.Keys, rows, x, y);
  }

  /** What each partition means: a chain to an ineligible relationship excludes, else a chain to a held-out
      relationship holds out, else the row trains; a row is eligible exactly when it is not excluded. */
  lemma {:induction false} PartitionMeaning(byId: Index, rows: set<GroupRow>, definition: SplitDefinition, x: Id)
    requires x in byId && definition.heldOutPartition in {Development, Test}
    ensures var row := ExpectedRow(byId, rows, definition, x);
            && (row.partition == Excluded <==>
                  exists y :: y in byId && Connected(rows, x, y) && BaseExclusionReason(byId[y], definition).Some?)
            && (row.partition == definition.heldOutPartition <==>
                  row.partition != Excluded &&
                  exists y :: y in byId && Connected(rows, x, y) && IsHeldOut(byId[y], definition))
            && (row.eligible <==> row.partition != Excluded)
            && (row.eligible <==> row.exclusionReason.None?)
  {
    var members := Component(byId.Keys, rows, x);
    var reasons := ExclusionReasons(members, byId, definition);
    if y :| y in byId && Connected(rows, x, y) && BaseExclusionReason(byId[y], definition).Some? {
      assert y in members && BaseExclusionReason(byId[y], definition).value in reasons;
    }
    if reasons != {} {
      var reason :| reason in reasons;
      var y :| y in members && BaseExclusionReason(byId[y], definition) == Some(reason);
    }
    if y :| y in byId && Connected(rows, x, y) && IsHeldOut(byId[y], definition) {
      assert y in members;
    }
  }

  // ----- In the fields of the relationships -----

  predicate IsIneligible(r: SplitRelationship, d: SplitDefinition) {
    || r.tier !in d.includedTiers
    || ((d.requireMapping || d.strategy == HeldOutSourcePassage) && !r.mappingEligible)
    || (d.strategy == HeldOutRelationshipFamily && r.relationshipFamilyKey.None?)
  }

  /** The first check that a relationship fails. */
  predicate FailsWith(r: SplitRelationship, d: SplitDefinition, reason: string) {
    || (reason == "tier_not_included" && r.tier !in d.includedTiers)
    || (reason == "mapping_ineligible" && r.tier in d.includedTiers
        && (d.requireMapping || d.strategy == HeldOutSourcePassage) && !r.mappingEligible)
    || (reason == "relationship_family_unavailable" && r.tier in d.includedTiers
        && d.strategy == HeldOutRelationshipFamily && r.relationshipFamilyKey.None?
        && (d.requireMapping ==> r.mappingEligible))
  }

  /** One of its values is held out. */
  predicate HoldsValue(r: SplitRelationship, d: SplitDefinition) {
    exists v | v in d.heldOutValues ::
      || (d.strategy == HeldOutBook && v in {r.endpointBooks.0, r.endpointBooks.1})
      || (d.strategy == HeldOutBookPair && IsBookPair(v, r))
      || (d.strategy == HeldOutSourcePassage && v in {r.endpointKeys.0, r.endpointKeys.1})
      || (d.strategy == HeldOutRelationshipFamily && r.relationshipFamilyKey == Some(v))
      || (d.strategy == HeldOutGenre && v in {r.broadGenres.0, r.broadGenres.1})
  }

  lemma {:induction false} EligibilityInFields(r: SplitRelationship, d: SplitDefinition)
    ensures BaseExclusionReason(r, d).Some? <==> IsIneligible(r, d)
    ensures forall reason :: BaseExclusionReason(r, d) == Some(reason) <==> FailsWith(r, d, reason)
  {
  }

  lemma {:induction false} HeldOutInFields(r: SplitRelationship, d: SplitDefinition)
    ensures IsHeldOut(r, d) <==> HoldsValue(r, d)
  {
    PairIsBookPair(BookPair(r), r);
    forall v ensures IsBookPair(v, r) <==> v == BookPair(r) {
      PairIsBookPair(v, r);
    }
  }

  /** The configured types and, with every strategy, exact unordered pairs; with held-out passages, shared endpoints and
      targets; with held-out families, families. */
  lemma {:induction false} EffectiveTypesInFields(d: SplitDefinition, t: string)
    ensures t in EffectiveGroupTypes(d) <==>
              || t in d.enforcedGroupTypes || t == "exact_unordered_pair"
              || (d.strategy == HeldOutSourcePassage && (t == "shared_endpoint" || t == "shared_target_passage"))
              || (d.strategy == HeldOutRelationshipFamily && t == "relationship_family")
  {
  }

  /** The membership rows that bind known relationships. */
  ghost function Binding(relationships: seq<SplitRelationship>, groups: seq<GroupRow>, d: SplitDefinition)
    : set<GroupRow>
  {
    set row | row in groups && row.groupType in EffectiveGroupTypes(d)
              && exists r :: r in relationships && r.relationshipId == row.relationshipId
  }

  /** Some relationship that a chain of shared groups leads to fails with the reason. */
  ghost predicate ReachesFailure(relationships: seq<SplitRelationship>, groups: seq<GroupRow>, d: SplitDefinition,
                                 x: Id, reason: string) {
    exists r :: r in relationships && Connected(Binding(relationships, groups, d), x, r.relationshipId)
      && FailsWith(r, d, reason)
  }

  ghost predicate ReachesHeldOut(relationships: seq<SplitRelationship>, groups: seq<GroupRow>, d: SplitDefinition,
                                 x: Id) {
    exists r :: r in relationships && Connected(Binding(relationships, groups, d), x, r.relationshipId)
      && HoldsValue(r, d)
  }

  ghost predicate ReachesIneligible(relationships: seq<SplitRelationship>, groups: seq<GroupRow>, d: SplitDefinition,
                                    x: Id) {
    exists r :: r in relationships && Connected(Binding(relationships, groups, d), x, r.relationshipId)
      && IsIneligible(r, d)
  }

  lemma {:induction false} BindingIsEnforced(relationships: seq<SplitRelationship>, groups: seq<GroupRow>,
                                             d: SplitDefinition)
    requires UniqueIds(relationships)
    ensures var byId := IndexOn(relationships, RelationshipKey());
            && IndexesExactly(byId, Elements(relationships))
            && Binding(relationships, groups, d) == Enforced(Elements(groups), EffectiveGroupTypes(d), byId.Keys)
  {
    IndexIsExact(relationships);
    var byId := IndexOn(relationships, RelationshipKey());
    forall x ensures x in byId <==> exists r :: r in relationships && r.relationshipId == x {
      if r :| r in relationships && r.relationshipId == x { assert r in Elements(relationships); }
    }
  }

  /** What one row of a result says, of the relationships, the leakage rows and the definition: it is excluded exactly
      when a chain leads to an ineligible relationship, held out exactly when none does and one leads to a held-out
      value, and trains otherwise. */
  lemma {:induction false} AssignmentMeans(relationships: seq<SplitRelationship>, groups: seq<GroupRow>,
                                           d: SplitDefinition, assignments: seq<AssignmentRow>, k: nat)
    requires IsSplitResult(Success(assignments), relationships, groups, d) && k < |assignments|
    requires d.heldOutPartition in {Development, Test}
    ensures var row := assignments[k]; var x := row.relationshipId;
            && (exists r :: r in relationships && r.relationshipId == x)
            && (row.partition == Excluded <==> ReachesIneligible(relationships, groups, d, x))
            && (row.partition == d.heldOutPartition <==>
                  !ReachesIneligible(relationships, groups, d, x) && ReachesHeldOut(relationships, groups, d, x))
            && (row.partition == Train <==>
                  !ReachesIneligible(relationships, groups, d, x) && !ReachesHeldOut(relationships, groups, d, x))
            && (row.eligible <==> row.partition != Excluded)
  {
    var byId := IndexOn(relationships, RelationshipKey());
    var x := assignments[k].relationshipId;
    BindingIsEnforced(relationships, groups, d);
    var rows := Binding(relationships, groups, d);
    EnumerationCovers(byId.Keys);
    assert x in byId && assignments[k] == ExpectedRow(byId, rows, d, x);
    PartitionMeaning(byId, rows, d, x);
    forall r | r in relationships
      ensures r.relationshipId in byId && byId[r.relationshipId] == r
      ensures BaseExclusionReason(r, d).Some? <==> IsIneligible(r, d)
      ensures IsHeldOut(r, d) <==> HoldsValue(r, d)
    {
      assert r in Elements(relationships);
      EligibilityInFields(r, d);
      HeldOutInFields(r, d);
    }
    forall y | y in byId ensures byId[y] in relationships && byId[y].relationshipId == y {
      assert byId[y] in Elements(relationships);
    }
  }

  /** The reason a row gives: the sorted reasons of all failures its chains lead to, marked as another member's when its
      own relationship has none. */
  lemma {:induction false} ReasonMeans(relationships: seq<SplitRelationship>, groups: seq<GroupRow>, d: SplitDefinition,
                                       assignments: seq<AssignmentRow>, k: nat, own: SplitRelationship,
                                       reasons: set<string>)
    requires IsSplitResult(Success(assignments), relationships, groups, d) && k < |assignments|
    requires own in relationships && own.relationshipId == assignments[k].relationshipId
    requires forall reason :: reason in reasons <==>
             ReachesFailure(relationships, groups, d, own.relationshipId, reason)
    ensures assignments[k].exclusionReason ==
            if reasons == {} then None
            else Some((if IsIneligible(own, d) then "" else "leakage_group_contains_ineligible_member:")
                      + Text.Join(Enumeration(reasons), ";"))
  {
    var byId := IndexOn(relationships, RelationshipKey());
    BindingIsEnforced(relationships, groups, d);
    EnumerationCovers(byId.Keys);
    assert own in Elements(relationships);
    ExclusionReasonsInFields(relationships, groups, d, byId, own.relationshipId, reasons);
    EligibilityInFields(own, d);
    assert "" + Text.Join(Enumeration(reasons), ";") == Text.Join(Enumeration(reasons), ";");
  }

  lemma {:induction false} ExclusionReasonsInFields(relationships: seq<SplitRelationship>, groups: seq<GroupRow>,
                                                    d: SplitDefinition, byId: Index, x: Id, reasons: set<string>)
    requires IndexesExactly(byId, Elements(relationships))
    requires forall reason :: reason in reasons <==> ReachesFailure(relationships, groups, d, x, reason)
    ensures ExclusionReasons(Component(byId.Keys, Binding(relationships, groups, d), x), byId, d) == reasons
  {
    var rows := Binding(relationships, groups, d);
    var members := Component(byId.Keys, rows, x);
    forall reason ensures reason in ExclusionReasons(members, byId, d) <==> reason in reasons {
      if r :| r in relationships && Connected(rows, x, r.relationshipId) && FailsWith(r, d, reason) {
        assert r in Elements(relationships);
        EligibilityInFields(r, d);
        assert r.relationshipId in members && BaseExclusionReason(byId[r.relationshipId], d) == Some(reason);
      }
      if y :| y in members && BaseExclusionReason(byId[y], d) == Some(reason) {
        assert byId[y] in Elements(relationships);
        EligibilityInFields(byId[y], d);
      }
    }
  }

  /** The group a row names: the least of those that bind it, if any does. */
  lemma {:induction false} NamedGroupIsLeast(relationships: seq<SplitRelationship>, groups: seq<GroupRow>,
                                             d: SplitDefinition, assignments: seq<AssignmentRow>, k: nat, g: Id)
    requires IsSplitResult(Success(assignments), relationships, groups, d) && k < |assignments|
    ensures assignments[k].leakageGroupId == Some(g) <==>
              && Binds(Binding(relationships, groups, d), g, assignments[k].relationshipId)
              && forall h :: Binds(Binding(relationships, groups, d), h, assignments[k].relationshipId) ==> AtMost(g, h)
    ensures assignments[k].leakageGroupId.None? <==>
              !exists h :: Binds(Binding(relationships, groups, d), h, assignments[k].relationshipId)
  {
    var byId := IndexOn(relationships, RelationshipKey());
    BindingIsEnforced(relationships, groups, d);
    EnumerationCovers(byId.Keys);
    var rows, x := Binding(relationships, groups, d), assignments[k].relationshipId;
    var ids := GroupsOf(rows, x);
    forall h ensures h in ids <==> Binds(rows, h, x) {
    }
    LeadingIsLeast(ids);
    if Enumeration(ids) != [] && Binds(rows, g, x) && forall h :: Binds(rows, h, x) ==> AtMost(g, h) {
      AtMostIsAntisymmetric(g, Enumeration(ids)[0]);
    }
  }

  ghost predicate Binds(rows: set<GroupRow>, g: Id, x: Id) {
    exists row :: row in rows && row.groupId == g && row.relationshipId == x
  }

  lemma {:induction false} LeadingIsLeast(ids: set<Id>)
    ensures Enumeration(ids) == [] <==> ids == {}
    ensures ids != {} ==> Enumeration(ids)[0] in ids && forall x :: x in ids ==> AtMost(Enumeration(ids)[0], x)
  {
    EnumerationCovers(ids);
  }

  lemma {:induction false} PartitionsComeFromRows(assignments: seq<AssignmentRow>, x: Id)
    requires x in PartitionsOf(assignments)
    ensures exists k :: 0 <= k < |assignments| && assignments[k].relationshipId == x
              && assignments[k].partition == PartitionsOf(assignments)[x] != Excluded
  {
    var last := |assignments| - 1;
    var before := assignments[..last];
    if assignments[last].partition == Excluded || assignments[last].relationshipId != x {
      PartitionsComeFromRows(before, x);
      var k :| 0 <= k < |before| && before[k].relationshipId == x
        && before[k].partition == PartitionsOf(before)[x] != Excluded;
      assert assignments[k] == before[k];
    }
  }

  lemma {:induction false} PlacedFollowsSpecification(assignments: seq<AssignmentRow>, byId: Index, rows: set<GroupRow>,
                                                      definition: SplitDefinition, x: Id)
    requires ExpectedRows(assignments, byId, rows, definition) && x in PartitionsOf(assignments)
    ensures x in byId && PartitionsOf(assignments)[x] == ExpectedRow(byId, rows, definition, x).partition
  {
    PartitionsComeFromRows(assignments, x);
    EnumerationCovers(byId.Keys);
  }

  lemma {:induction false} CrossingPair(partitions: map<Id, Partition>, groups: set<GroupRow>, types: set<string>,
                                        g: Id)
    returns (p: GroupRow, q: GroupRow)
    requires Crosses(partitions, groups, types, g)
    ensures p in groups && q in groups && p.groupId == g && q.groupId == g
    ensures Placed(partitions, p, types) && Placed(partitions, q, types)
    ensures partitions[p.relationshipId] != partitions[q.relationshipId]
  {
    p, q :| p in groups && q in groups && p.groupId == g && q.groupId == g &&
      Placed(partitions, p, types) && Placed(partitions, q, types) &&
      partitions[p.relationshipId] != partitions[q.relationshipId];
  }

  lemma {:induction false} CrossingIsLinked(groups: seq<GroupRow>, types: set<string>, ids: set<Id>, p: GroupRow,
                                            q: GroupRow)
    requires p in Elements(groups) && q in Elements(groups) && p.groupId == q.groupId
    requires p.groupType in types && q.groupType in types && p.relationshipId in ids && q.relationshipId in ids
    ensures Connected(Enforced(Elements(groups), types, ids), p.relationshipId, q.relationshipId)
  {
    var rows := Enforced(Elements(groups), types, ids);
    assert p in rows && q in rows;
    LinkedIsConnected(rows, p.relationshipId, q.relationshipId);
  }

  /** No configured group has eligible members in two partitions: the leakage check over the assignments a
      definition produced reports nothing for the group types that definition enforces. */
  lemma {:induction false} NoLeakage(relationships: seq<SplitRelationship>, groups: seq<GroupRow>,
                                     definition: SplitDefinition, assignments: seq<AssignmentRow>, report: seq<Id>)
    requires IsSplitResult(Success(assignments), relationships, groups, definition)
    requires IsViolationReport(report, assignments, Elements(groups), EffectiveGroupTypes(definition))
    ensures report == []
  {
    var types := EffectiveGroupTypes(definition);
    var byId := IndexOn(relationships, RelationshipKey());
    IndexIsExact(relationships);
    var rows := Enforced(Elements(groups), types, byId.Keys);
    if report != [] {
      var p, q := CrossingPair(PartitionsOf(assignments), Elements(groups), types, report[0]);
      PlacedFollowsSpecification(assignments, byId, rows, definition, p.relationshipId);
      PlacedFollowsSpecification(assignments, byId, rows, definition, q.relationshipId);
      CrossingIsLinked(groups, types, byId.Keys, p, q);
      ConnectedSharePartition(byId, rows, definition, p.relationshipId, q.relationshipId);
    }
  }

  /** Permuting the relationships, or permuting or repeating group rows, changes nothing. */
  lemma {:induction false} OrderDoesNotMatter(relationships: seq<SplitRelationship>, permuted: seq<SplitRelationship>,
                                              groups: seq<GroupRow>, regrouped: seq<GroupRow>,
                                              definition: SplitDefinition, r: Result<seq<AssignmentRow>, SplitError>,
                                              s: Result<seq<AssignmentRow>, SplitError>)
    requires multiset(relationships) == multiset(permuted) && Elements(groups) == Elements(regrouped)
    requires IsSplitResult(r, relationships, groups, definition)
    requires IsSplitResult(s, permuted, regrouped, definition)
    ensures r == s
  {
    SortingKeepsRelationships(relationships, permuted);
    if r.Success? {
      var byId := IndexOn(relationships, RelationshipKey());
      IndexIsExact(relationships);
      var rows := Enforced(Elements(groups), EffectiveGroupTypes(definition), byId.Keys);
      assert ExpectedRows(r.value, byId, rows, definition) && ExpectedRows(s.value, byId, rows, definition);
      assert r.value == s.value;
    } else {
      assert r.error.DuplicateRelationshipIds? && s.error.DuplicateRelationshipIds?;
    }
  }
}
