/** From references to partitions: the leakage rows of the views meet the two stages that decide partitions, the
    exclusion pass behind the hashed placement and the union-find assignment. */
module LeakageSafety {
  import opened Wrappers
  import opened Ordering
  import opened BenchmarkRows
  import opened Connectivity
  import opened Dictionaries
  import opened Splits
  import opened SplitTheorems
  import opened ConflictExclusion
  import opened ConflictTheorems
  import opened PipelineSplits
  import opened LeakageSweep
  import opened LeakageInputs
  import opened LeakageRows
  import opened LeakageGroups
  import opened PipelineLeakage
  import Mapping
  import Coordinates

  /** The leakage rows hold the view of these inputs. */
  ghost predicate Carries(groups: seq<GroupRow>, inputs: set<Input>, identify: Identify) {
    AllValid(inputs) && exists rows: set<GroupRow> :: IsLeakageView(rows, inputs, identify) && rows <= Elements(groups)
  }

  lemma {:induction false} RelatedShareTypedGroup(groups: seq<GroupRow>, inputs: set<Input>, identify: Identify,
                                                  t: GroupType, types: set<string>, x: Id, y: Id)
    returns (key: TypedGroup)
    requires Carries(groups, inputs, identify) && Name(t) in types && x != y && Related(inputs, t, x, y)
    ensures key.0 == Name(t) && Member(groups, types, key, x) && Member(groups, types, key, y)
  {
    var rows: set<GroupRow> :| IsLeakageView(rows, inputs, identify) && rows <= Elements(groups);
    RelatedAreTogether(rows, inputs, identify, t, x, y);
    var g :| GroupRow(g, x, Name(t)) in rows && GroupRow(g, y, Name(t)) in rows;
    assert GroupRow(g, x, Name(t)) in Elements(groups) && GroupRow(g, y, Name(t)) in Elements(groups);
    key := (Name(t), g);
  }

  // ----- Behind the exclusion pass -----

  /** Both rows of a frame survive, in different partitions. */
  predicate Parted(rows: seq<AssignmentRow>, i: nat, j: nat) {
    && i < |rows| && j < |rows|
    && rows[i].partition != Excluded && rows[j].partition != Excluded && rows[i].partition != rows[j].partition
    && rows[i].relationshipId != rows[j].relationshipId
  }

  /** Relationships that survive in different partitions are unrelated by every enforced view. */
  lemma {:induction false} SurvivorsAreUnrelated(split: seq<SplitRelationship>, groups: seq<GroupRow>, c: Configured,
                                                 fraction: Fraction, pairGroup: Id -> Id, i: nat, j: nat,
                                                 inputs: set<Input>, identify: Identify, t: GroupType)
    requires Parted(Frame(split, groups, c, fraction, pairGroup), i, j)
    requires Carries(groups, inputs, identify) && Name(t) in c.enforced
    ensures !Related(inputs, t, split[i].relationshipId, split[j].relationshipId)
  {
    var x, y := split[i].relationshipId, split[j].relationshipId;
    SurvivorsHoldOut(split, groups, c, fraction, pairGroup, i);
    SurvivorsHoldOut(split, groups, c, fraction, pairGroup, j);
    SurvivorsAreApart(split, groups, c, fraction, pairGroup, i, j);
    if Related(inputs, t, x, y) {
      var key := RelatedShareTypedGroup(groups, inputs, identify, t, c.enforced, x, y);
    }
  }

  /** The leakage rows come from these relationships through `_leakage_inputs`. */
  ghost predicate ComeFrom(groups: seq<GroupRow>, relationships: seq<MappedRelationship>, streams: seq<EditionStream>,
                           digest: string -> nat, identify: Identify) {
    exists inputs: seq<Input> ::
      AreInputs(inputs, relationships, TargetPlaces(streams), digest) && Carries(groups, Elements(inputs), identify)
  }

  /** The leakage rows are exactly the view of what the relationships render to. */
  ghost predicate AreRowsOf(groups: seq<GroupRow>, relationships: seq<MappedRelationship>, streams: seq<EditionStream>,
                            digest: string -> nat, identify: Identify) {
    exists inputs: seq<Input> ::
      && AreInputs(inputs, relationships, TargetPlaces(streams), digest)
      && AllValid(Elements(inputs)) && IsLeakageView(Elements(groups), Elements(inputs), identify)
  }

  lemma {:induction false} RowsComeFrom(groups: seq<GroupRow>, relationships: seq<MappedRelationship>,
                                        streams: seq<EditionStream>, digest: string -> nat, identify: Identify)
    requires AreRowsOf(groups, relationships, streams, digest, identify)
    ensures ComeFrom(groups, relationships, streams, digest, identify)
  {
    var inputs: seq<Input> :|
      && AreInputs(inputs, relationships, TargetPlaces(streams), digest)
      && AllValid(Elements(inputs)) && IsLeakageView(Elements(groups), Elements(inputs), identify);
    assert Carries(groups, Elements(inputs), identify);
  }

  /** Where the source view is enforced, the reference spans of survivors in different partitions never intersect:
      no verse of the source scheme is on both sides of a split. */
  lemma {:induction false} SurvivorsDoNotMeet(split: seq<SplitRelationship>, groups: seq<GroupRow>, c: Configured,
                                              fraction: Fraction, pairGroup: Id -> Id, i: nat, j: nat,
                                              relationships: seq<MappedRelationship>, streams: seq<EditionStream>,
                                              digest: string -> nat, identify: Identify)
    requires Parted(Frame(split, groups, c, fraction, pairGroup), i, j)
    requires ComeFrom(groups, relationships, streams, digest, identify) && ArePackable(relationships)
    requires Name(EndpointOverlap) in c.enforced
    ensures !ReferencesMeet(LinkedOf(relationships), split[i].relationshipId, split[j].relationshipId, digest)
  {
    var inputs: seq<Input> :|
      AreInputs(inputs, relationships, TargetPlaces(streams), digest) && Carries(groups, Elements(inputs), identify);
    SurvivorsAreUnrelated(split, groups, c, fraction, pairGroup, i, j, Elements(inputs), identify, EndpointOverlap);
    SourceViewIsMeeting(inputs, relationships, TargetPlaces(streams), digest, split[i].relationshipId,
      split[j].relationshipId);
  }

  /** Where the target view is enforced, survivors in different partitions map to no common passage. */
  lemma {:induction false} SurvivorsShareNoTarget(split: seq<SplitRelationship>, groups: seq<GroupRow>, c: Configured,
                                                  fraction: Fraction, pairGroup: Id -> Id, i: nat, j: nat,
                                                  relationships: seq<MappedRelationship>, streams: seq<EditionStream>,
                                                  digest: string -> nat, identify: Identify)
    requires Parted(Frame(split, groups, c, fraction, pairGroup), i, j)
    requires ComeFrom(groups, relationships, streams, digest, identify)
    requires IsIndexed(streams) && AreRuns(relationships, streams)
    requires Name(TargetOverlap) in c.enforced
    ensures !ShareTarget(relationships, split[i].relationshipId, split[j].relationshipId)
  {
    var inputs: seq<Input> :|
      AreInputs(inputs, relationships, TargetPlaces(streams), digest) && Carries(groups, Elements(inputs), identify);
    SurvivorsAreUnrelated(split, groups, c, fraction, pairGroup, i, j, Elements(inputs), identify, TargetOverlap);
    TargetViewIsSharing(inputs, relationships, streams, digest, split[i].relationshipId, split[j].relationshipId);
  }

  ghost predicate UniqueRelationships(relationships: seq<MappedRelationship>) {
    forall i, j | 0 <= i < j < |relationships| :: relationships[i].relationshipId != relationships[j].relationshipId
  }

  lemma {:induction false} InputsAreUnique(inputs: seq<Input>, relationships: seq<MappedRelationship>, c: Places,
                                           digest: string -> nat)
    requires AreInputs(inputs, relationships, c, digest)
    ensures UniqueOn(inputs, InputKey()) <==> UniqueRelationships(relationships)
  {
    assert forall k | 0 <= k < |inputs| :: InputKey()(inputs[k]) == relationships[k].relationshipId;
    if UniqueOn(inputs, InputKey()) {
      forall i, j | 0 <= i < j < |relationships|
        ensures relationships[i].relationshipId != relationships[j].relationshipId
      {
        assert InputKey()(inputs[i]) != InputKey()(inputs[j]);
      }
    }
  }

  /** The build's own chain from mapped relationships to leakage rows: it stops at an unknown passage, an invalid
      endpoint or a repeated relationship, and what it yields is what the theorems here start from. */
  method BuildLeakage(relationships: seq<MappedRelationship>, streams: seq<EditionStream>, digest: string -> nat,
                      identify: Identify)
    returns (r: Option<seq<GroupRow>>)
    ensures r.Some? <==>
              && (forall k | 0 <= k < |relationships| :: IsBuildable(relationships[k], TargetPlaces(streams), digest))
              && UniqueRelationships(relationships)
    ensures r.Some? ==>
              && AreRowsOf(r.value, relationships, streams, digest, identify)
              && ComeFrom(r.value, relationships, streams, digest, identify)
  {
    var built := BuildInputs(relationships, streams, digest);
    if built.Failure? {
      return None;
    }
    var inputs := built.value;
    InputsAreValid(inputs, relationships, streams, digest);
    InputsAreUnique(inputs, relationships, TargetPlaces(streams), digest);
    var rows := LeakageGroupRows(inputs, identify);
    if rows.Failure? {
      return None;
    }
    assert AreRowsOf(rows.value, relationships, streams, digest, identify);
    RowsComeFrom(rows.value, relationships, streams, digest, identify);
    r := Some(rows.value);
  }

  // ----- Under union-find -----

  /** The rows of a relationship in a split result. */
  predicate Assigns(assignments: seq<AssignmentRow>, k: nat, x: Id) {
    k < |assignments| && assignments[k].relationshipId == x
  }

  /** A view among the effective types keeps related relationships in one partition. */
  lemma {:induction false} RelatedSharePartition(relationships: seq<SplitRelationship>, groups: seq<GroupRow>,
                                                 definition: SplitDefinition, assignments: seq<AssignmentRow>,
                                                 inputs: set<Input>, identify: Identify, t: GroupType, k: nat, x: Id,
                                                 l: nat, y: Id)
    requires IsSplitResult(Success(assignments), relationships, groups, definition)
    requires Carries(groups, inputs, identify) && Name(t) in EffectiveGroupTypes(definition)
    requires Assigns(assignments, k, x) && Assigns(assignments, l, y) && x != y && Related(inputs, t, x, y)
    ensures assignments[k].partition == assignments[l].partition
  {
    var types := EffectiveGroupTypes(definition);
    var key := RelatedShareTypedGroup(groups, inputs, identify, t, types, x, y);
    var byId := IndexOn(relationships, RelationshipKey());
    IndexIsExact(relationships);
    var rows := Enforced(Elements(groups), types, byId.Keys);
    AssignedByExpectation(assignments, byId, rows, definition, k);
    AssignedByExpectation(assignments, byId, rows, definition, l);
    assert GroupRow(key.1, x, key.0) in rows && GroupRow(key.1, y, key.0) in rows;
    assert Connectivity.Linked(rows, x, y);
    LinkedIsConnected(rows, x, y);
    ConnectedSharePartition(byId, rows, definition, x, y);
  }

  lemma {:induction false} AssignedByExpectation(assignments: seq<AssignmentRow>, byId: Index, rows: set<GroupRow>,
                                                 definition: SplitDefinition, k: nat)
    requires ExpectedRows(assignments, byId, rows, definition) && k < |assignments|
    ensures assignments[k].relationshipId in byId
    ensures assignments[k].partition == ExpectedRow(byId, rows, definition, assignments[k].relationshipId).partition
  {
    EnumerationCovers(byId.Keys);
  }

  /** Relationships whose reference spans intersect get one partition, where the source view is enforced. */
  lemma {:induction false} MeetingSharePartition(relationships: seq<SplitRelationship>, groups: seq<GroupRow>,
                                                 definition: SplitDefinition, assignments: seq<AssignmentRow>,
                                                 mapped: seq<MappedRelationship>, streams: seq<EditionStream>,
                                                 digest: string -> nat, identify: Identify, k: nat, x: Id, l: nat,
                                                 y: Id)
    requires IsSplitResult(Success(assignments), relationships, groups, definition)
    requires ComeFrom(groups, mapped, streams, digest, identify) && ArePackable(mapped)
    requires Name(EndpointOverlap) in EffectiveGroupTypes(definition)
    requires Assigns(assignments, k, x) && Assigns(assignments, l, y) && x != y
    requires ReferencesMeet(LinkedOf(mapped), x, y, digest)
    ensures assignments[k].partition == assignments[l].partition
  {
    var inputs: seq<Input> :|
      AreInputs(inputs, mapped, TargetPlaces(streams), digest) && Carries(groups, Elements(inputs), identify);
    SourceViewIsMeeting(inputs, mapped, TargetPlaces(streams), digest, x, y);
    RelatedSharePartition(relationships, groups, definition, assignments, Elements(inputs), identify, EndpointOverlap,
      k, x, l, y);
  }

  /** Relationships that map to a common passage get one partition, where the target view is enforced. */
  lemma {:induction false} SharersSharePartition(relationships: seq<SplitRelationship>, groups: seq<GroupRow>,
                                                 definition: SplitDefinition, assignments: seq<AssignmentRow>,
                                                 mapped: seq<MappedRelationship>, streams: seq<EditionStream>,
                                                 digest: string -> nat, identify: Identify, k: nat, x: Id, l: nat,
                                                 y: Id)
    requires IsSplitResult(Success(assignments), relationships, groups, definition)
    requires ComeFrom(groups, mapped, streams, digest, identify) && IsIndexed(streams) && AreRuns(mapped, streams)
    requires Name(TargetOverlap) in EffectiveGroupTypes(definition)
    requires Assigns(assignments, k, x) && Assigns(assignments, l, y) && x != y && ShareTarget(mapped, x, y)
    ensures assignments[k].partition == assignments[l].partition
  {
    var inputs: seq<Input> :|
      AreInputs(inputs, mapped, TargetPlaces(streams), digest) && Carries(groups, Elements(inputs), identify);
    TargetViewIsSharing(inputs, mapped, streams, digest, x, y);
    RelatedSharePartition(relationships, groups, definition, assignments, Elements(inputs), identify, TargetOverlap, k,
      x, l, y);
  }

  // ----- What the pipeline supplies -----

  /** With identifiers that tell groups apart, the leakage report passes exactly the fixed points of exclusion on the
      rows of a view. */
  lemma {:induction false} ViewFixedPointsMeetTheReport(groups: seq<GroupRow>, inputs: set<Input>, identify: Identify,
                                                        types: set<string>, rows: seq<AssignmentRow>)
    requires IsLeakageView(Elements(groups), inputs, identify) && KeysTellApart(identify) && UniqueRows(rows)
    ensures ExcludeConflicts(rows, groups, types) == rows <==> !Reported(rows, groups, types)
  {
    forall p, q | p in groups && q in groups && p.groupType in types && q.groupType in types
      && p.groupId == q.groupId && p.relationshipId != q.relationshipId
      ensures TypedTogether(groups, types, p.relationshipId, q.relationshipId)
    {
      assert p in Elements(groups) && q in Elements(groups);
      IdentifierNamesView(Elements(groups), inputs, identify, p, q);
      var key := (p.groupType, p.groupId);
      assert Member(groups, types, key, p.relationshipId) && Member(groups, types, key, q.relationshipId);
    }
    FixedPointsMeetTheReport(groups, types);
  }

  function IdsOf(targets: seq<Mapping.Target>): seq<Id> {
    seq(|targets|, k requires 0 <= k < |targets| => targets[k].passageId)
  }

  /** The span an endpoint maps to is a run of its stream. */
  lemma {:induction false} MappedSpanIsRun(s: seq<Mapping.Target>, start: Coordinates.Coordinate,
                                           end: Coordinates.Coordinate, streams: seq<EditionStream>, n: nat)
    requires Mapping.StrictlySorted(s) && n < |streams| && streams[n].passages == IdsOf(s)
    ensures IsRun(IdsOf(Mapping.SpanFilter(s, start, end)), streams)
  {
    var lo, hi := Mapping.SpanIsSlice(s, start, end);
    assert IdsOf(s[lo..hi]) == IdsOf(s)[lo..hi];
    assert lo <= hi <= |streams[n].passages| && IdsOf(s[lo..hi]) == streams[n].passages[lo..hi];
  }
}
