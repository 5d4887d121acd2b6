/** The split assignments the pipeline writes (src/echoes/benchmarks/pipeline.py): every relationship is placed by
    hashing what its strategy holds out, and then leakage conflicts are excluded. `fraction` is the seeded digest of
    a value as a fraction of its range. */
module PipelineSplits {
  import opened Wrappers
  import opened Ordering
  import opened BenchmarkRows
  import opened Splits
  import opened ConflictExclusion

  datatype Configured = Configured(
    strategy: Strategy, includedTiers: set<int>, mappingRequired: bool, enforced: set<string>, test: real,
      development: real)

  const RANGE_GUARD: string := "range_overlap_guard"
  const ENDPOINT_CONFLICT: string := "endpoint_partition_conflict"

  type Fraction = string -> real

  /** `_hash_partition` */
  function HashPartition(c: Configured, fraction: Fraction, value: string): Partition {
    if fraction(value) < c.test then Test
    else if fraction(value) < c.test + c.development then Development
    else Train
  }

  /** `_priority_partition` of two values. */
  function PriorityPartition(first: Partition, second: Partition): Partition {
    if first == Test || second == Test then Test
    else if first == Development || second == Development then Development
    else Train
  }

  /** `_split_values` for one relationship: what the strategy holds out. */
  function HeldValues(r: SplitRelationship, strategy: Strategy): set<string> {
    match strategy
    case HeldOutBook => {r.endpointBooks.0, r.endpointBooks.1}
    case HeldOutBookPair => {BookPair(r)}
    case HeldOutSourcePassage => {r.endpointKeys.0, r.endpointKeys.1}
    case HeldOutGenre => {r.broadGenres.0, r.broadGenres.1}
    case HeldOutRelationshipFamily => {}
  }

  function IsRange(key: string): bool { '-' in key }

  function Spread(c: Configured, fraction: Fraction, values: (string, string)): Partition {
    PriorityPartition(HashPartition(c, fraction, values.0), HashPartition(c, fraction, values.1))
  }

  /** Where a relationship goes before conflicts are considered, and why when it is excluded. */
  function Place(r: SplitRelationship, c: Configured, fraction: Fraction): (Partition, Option<string>) {
    if r.tier !in c.includedTiers then (Excluded, Some(TIER_NOT_INCLUDED))
    else if c.mappingRequired && !r.mappingEligible then (Excluded, Some(MAPPING_INELIGIBLE))
    else match c.strategy
      case HeldOutRelationshipFamily => (Excluded, Some(FAMILY_UNAVAILABLE))
      case HeldOutBook => (Spread(c, fraction, r.endpointBooks), None)
      case HeldOutBookPair => (HashPartition(c, fraction, BookPair(r)), None)
      case HeldOutGenre => (Spread(c, fraction, r.broadGenres), None)
      case HeldOutSourcePassage =>
        if IsRange(r.endpointKeys.0) || IsRange(r.endpointKeys.1) then (Excluded, Some(RANGE_GUARD))
        else if HashPartition(c, fraction, r.endpointKeys.0) != HashPartition(c, fraction, r.endpointKeys.1) then
          (Excluded, Some(ENDPOINT_CONFLICT))
        else (HashPartition(c, fraction, r.endpointKeys.0), None)
  }

  function PlacedRow(r: SplitRelationship, c: Configured, fraction: Fraction, pairGroup: Id -> Id): AssignmentRow {
    var (partition, reason) := Place(r, c, fraction);
    AssignmentRow(r.relationshipId, partition, Some(pairGroup(r.relationshipId)), reason.None?, reason)
  }

  function PlacedRows(inputs: seq<SplitRelationship>, c: Configured, fraction: Fraction, pairGroup: Id -> Id)
      : seq<AssignmentRow> {
    seq(|inputs|, k requires 0 <= k < |inputs| => PlacedRow(inputs[k], c, fraction, pairGroup))
  }

  /** The frame of one strategy: placed rows, less conflicts. */
  function Frame(inputs: seq<SplitRelationship>, groups: seq<GroupRow>, c: Configured, fraction: Fraction,
                 pairGroup: Id -> Id)
    : (rows: seq<AssignmentRow>)
    ensures |rows| == |inputs|
  {
    ExcludeConflicts(PlacedRows(inputs, c, fraction, pairGroup), groups, c.enforced)
  }

  /** One strategy's frame, from its relationships and the leakage rows. */
  method StrategyFrame(inputs: seq<SplitRelationship>, groups: seq<GroupRow>, c: Configured, fraction: Fraction,
                       pairGroup: Id -> Id)
    returns (rows: seq<AssignmentRow>)
    ensures rows == Frame(inputs, groups, c, fraction, pairGroup)
  {
    var placed: seq<AssignmentRow> := [];
    for k := 0 to |inputs|
      invariant placed == PlacedRows(inputs, c, fraction, pairGroup)[..k]
    {
      placed := placed + [PlacedRow(inputs[k], c, fraction, pairGroup)];
    }
    assert placed == PlacedRows(inputs, c, fraction, pairGroup);
    rows := ExcludeConflicts(placed, groups, c.enforced);
  }

  // ---- what a surviving row promises ----

  /** Train comes before development, and development before test. */
  function Rank(p: Partition): nat {
    match p
    case Train => 0
    case Development => 1
    case Test => 2
    case Excluded => 3
  }

  /** No value of the row was drawn for a partition beyond its own, and one was drawn for exactly its own. */
  predicate HoldsOut(r: SplitRelationship, p: Partition, c: Configured, fraction: Fraction) {
    && (forall v | v in HeldValues(r, c.strategy) :: Rank(HashPartition(c, fraction, v)) <= Rank(p))
    && (exists v | v in HeldValues(r, c.strategy) :: HashPartition(c, fraction, v) == p)
  }

  lemma {:induction false} PlacementHoldsOut(r: SplitRelationship, c: Configured, fraction: Fraction)
    ensures Place(r, c, fraction).0 == Excluded <==> Place(r, c, fraction).1.Some?
    ensures Place(r, c, fraction).0 != Excluded ==> HoldsOut(r, Place(r, c, fraction).0, c, fraction)
    ensures Place(r, c, fraction).0 != Excluded && c.strategy in {HeldOutSourcePassage, HeldOutBookPair} ==>
              forall v | v in HeldValues(r, c.strategy) :: HashPartition(c, fraction, v) == Place(r, c, fraction).0
  {
    var p := Place(r, c, fraction).0;
    if p != Excluded {
      var first, second := Ends(r, c.strategy);
      assert HeldValues(r, c.strategy) == {first, second};
      assert p == HashPartition(c, fraction, first) || p == HashPartition(c, fraction, second);
    }
  }

  lemma {:induction false} Ends(r: SplitRelationship, strategy: Strategy) returns (first: string, second: string)
    requires strategy != HeldOutRelationshipFamily
    ensures HeldValues(r, strategy) == {first, second}
    ensures strategy == HeldOutBook ==> (first, second) == r.endpointBooks
    ensures strategy == HeldOutGenre ==> (first, second) == r.broadGenres
    ensures strategy == HeldOutSourcePassage ==> (first, second) == r.endpointKeys
    ensures strategy == HeldOutBookPair ==> first == BookPair(r) && second == BookPair(r)
  {
    match strategy
    case HeldOutBook => first, second := r.endpointBooks.0, r.endpointBooks.1;
    case HeldOutBookPair => first, second := BookPair(r), BookPair(r);
    case HeldOutSourcePassage => first, second := r.endpointKeys.0, r.endpointKeys.1;
    case HeldOutGenre => first, second := r.broadGenres.0, r.broadGenres.1;
  }

  /** Rows are excluded exactly when they state a reason, and whatever survives is as it was placed: so a surviving
      training row holds nothing drawn for development or test. */
  lemma {:induction false} SurvivorsHoldOut(inputs: seq<SplitRelationship>, groups: seq<GroupRow>, c: Configured,
                                            fraction: Fraction, pairGroup: Id -> Id, k: nat)
    requires k < |inputs|
    ensures var row := Frame(inputs, groups, c, fraction, pairGroup)[k];
            && row.relationshipId == inputs[k].relationshipId
            && (row.partition == Excluded <==> row.exclusionReason.Some?)
            && (row.eligible <==> row.exclusionReason.None?)
            && (row.partition != Excluded ==>
                  row.partition == Place(inputs[k], c, fraction).0
                  && row.leakageGroupId == Some(pairGroup(inputs[k].relationshipId))
                  && HoldsOut(inputs[k], row.partition, c, fraction))
  {
    PlacementHoldsOut(inputs[k], c, fraction);
  }

  /** Two surviving rows in different partitions share no enforced leakage group, and share a held-out value only
      when that was drawn for the nearer partition or before it; held-out passages and book pairs they never
      share. */
  lemma {:induction false} SurvivorsAreApart(inputs: seq<SplitRelationship>, groups: seq<GroupRow>, c: Configured,
                                             fraction: Fraction, pairGroup: Id -> Id, i: nat, j: nat)
    requires i < |inputs| && j < |inputs|
    requires var rows := Frame(inputs, groups, c, fraction, pairGroup);
             rows[i].partition != Excluded && rows[j].partition != Excluded && rows[i].partition != rows[j].partition
    ensures forall key: TypedGroup ::
              !(Member(groups, c.enforced, key, inputs[i].relationshipId)
                && Member(groups, c.enforced, key, inputs[j].relationshipId))
    ensures var rows := Frame(inputs, groups, c, fraction, pairGroup);
            forall v | v in HeldValues(inputs[i], c.strategy) && v in HeldValues(inputs[j], c.strategy) ::
              && c.strategy in {HeldOutBook, HeldOutGenre}
              && Rank(HashPartition(c, fraction, v)) <= Rank(rows[i].partition)
              && Rank(HashPartition(c, fraction, v)) <= Rank(rows[j].partition)
  {
    var placed := PlacedRows(inputs, c, fraction, pairGroup);
    var rows := Frame(inputs, groups, c, fraction, pairGroup);
    SurvivorsHoldOut(inputs, groups, c, fraction, pairGroup, i);
    SurvivorsHoldOut(inputs, groups, c, fraction, pairGroup, j);
    PlacementHoldsOut(inputs[i], c, fraction);
    PlacementHoldsOut(inputs[j], c, fraction);
    ExclusionSeparates(placed, groups, c.enforced);
    assert EligibleIn(rows, inputs[i].relationshipId, rows[i].partition);
    assert EligibleIn(rows, inputs[j].relationshipId, rows[j].partition);
    forall key: TypedGroup
      ensures !(Member(groups, c.enforced, key, inputs[i].relationshipId)
              && Member(groups, c.enforced, key, inputs[j].relationshipId))
    {
      if Member(groups, c.enforced, key, inputs[i].relationshipId)
        && Member(groups, c.enforced, key, inputs[j].relationshipId) {
        CrossingIntro(rows, groups, c.enforced, key, inputs[i].relationshipId, inputs[j].relationshipId,
          rows[i].partition, rows[j].partition);
      }
    }
  }

  // ---- what places a row ----

  /** The draw of one value, by the configured shares alone. */
  predicate IsDrawn(p: Partition, x: real, c: Configured) {
    && (p == Test <==> x < c.test)
    && (p == Development <==> c.test <= x < c.test + c.development)
    && (p == Train <==> c.test <= x && c.test + c.development <= x)
  }

  /** The draw of two: the test share if either falls there, else the development share if either does. */
  predicate IsDrawnOfTwo(p: Partition, x: real, y: real, c: Configured) {
    && (p == Test <==> x < c.test || y < c.test)
    && (p == Development <==>
          c.test <= x && c.test <= y && (x < c.test + c.development || y < c.test + c.development))
    && (p == Train <==>
          c.test <= x && c.test <= y && c.test + c.development <= x && c.test + c.development <= y)
  }

  /** A row that survives is where the fractions of its held-out values put it. */
  lemma {:induction false} SurvivorsFollowFractions(inputs: seq<SplitRelationship>, groups: seq<GroupRow>,
                                                    c: Configured, fraction: Fraction, pairGroup: Id -> Id, k: nat)
    requires k < |inputs| && Frame(inputs, groups, c, fraction, pairGroup)[k].partition != Excluded
    ensures var p, r := Frame(inputs, groups, c, fraction, pairGroup)[k].partition, inputs[k];
            match c.strategy
            case HeldOutBookPair => exists text :: IsBookPair(text, r) && IsDrawn(p, fraction(text), c)
            case HeldOutSourcePassage =>
              IsDrawn(p, fraction(r.endpointKeys.0), c) && IsDrawn(p, fraction(r.endpointKeys.1), c)
            case HeldOutBook => IsDrawnOfTwo(p, fraction(r.endpointBooks.0), fraction(r.endpointBooks.1), c)
            case HeldOutGenre => IsDrawnOfTwo(p, fraction(r.broadGenres.0), fraction(r.broadGenres.1), c)
            case HeldOutRelationshipFamily => false
  {
    SurvivorsHoldOut(inputs, groups, c, fraction, pairGroup, k);
    PairIsBookPair(BookPair(inputs[k]), inputs[k]);
  }

  /** The relationship is one the strategy takes at all. */
  predicate IsTaken(r: SplitRelationship, c: Configured) {
    r.tier in c.includedTiers && (c.mappingRequired ==> r.mappingEligible)
  }

  /** Both fractions fall into one share. */
  predicate InOneShare(x: real, y: real, c: Configured) {
    || (x < c.test && y < c.test)
    || (c.test <= x < c.test + c.development && c.test <= y < c.test + c.development)
    || (c.test <= x && c.test + c.development <= x && c.test <= y && c.test + c.development <= y)
  }

  /** When a relationship is excluded before conflicts are considered, and with which reason. */
  lemma {:induction false} PlacementExcludesExactlyWhen(r: SplitRelationship, c: Configured, fraction: Fraction)
    ensures var (p, reason) := Place(r, c, fraction);
            var ranged := '-' in r.endpointKeys.0 || '-' in r.endpointKeys.1;
            && (p == Excluded <==> reason.Some?)
            && (reason == Some("tier_not_included") <==> r.tier !in c.includedTiers)
            && (reason == Some("mapping_ineligible") <==>
                  r.tier in c.includedTiers && c.mappingRequired && !r.mappingEligible)
            && (reason == Some("relationship_family_unavailable") <==>
                  IsTaken(r, c) && c.strategy == HeldOutRelationshipFamily)
            && (reason == Some("range_overlap_guard") <==>
                  IsTaken(r, c) && c.strategy == HeldOutSourcePassage && ranged)
            && (reason == Some("endpoint_partition_conflict") <==>
                  && IsTaken(r, c) && c.strategy == HeldOutSourcePassage && !ranged
                  && !InOneShare(fraction(r.endpointKeys.0), fraction(r.endpointKeys.1), c))
            && (reason.None? <==>
                  && IsTaken(r, c) && c.strategy != HeldOutRelationshipFamily
                  && (c.strategy == HeldOutSourcePassage ==>
                        !ranged && InOneShare(fraction(r.endpointKeys.0), fraction(r.endpointKeys.1), c)))
  {
    ReasonsDiffer();
    var same := HashPartition(c, fraction, r.endpointKeys.0) == HashPartition(c, fraction, r.endpointKeys.1);
    assert same <==> InOneShare(fraction(r.endpointKeys.0), fraction(r.endpointKeys.1), c);
  }

  lemma {:induction false} ReasonsDiffer()
    ensures |TIER_NOT_INCLUDED| == 17 && |MAPPING_INELIGIBLE| == 18 && |FAMILY_UNAVAILABLE| == 31
    ensures |RANGE_GUARD| == 19 && |ENDPOINT_CONFLICT| == 27
  {
  }

  /** A row of the frame is excluded exactly when its placement is, or when a configured group it belongs to has placed
      members in two partitions. */
  lemma {:induction false} FrameExcludesExactlyWhen(inputs: seq<SplitRelationship>, groups: seq<GroupRow>,
                                                    c: Configured, fraction: Fraction, pairGroup: Id -> Id, k: nat)
    requires k < |inputs|
    ensures Frame(inputs, groups, c, fraction, pairGroup)[k].partition == Excluded <==>
              || Place(inputs[k], c, fraction).0 == Excluded
              || SomeGroupIsSplit(PlacedRows(inputs, c, fraction, pairGroup), groups, c.enforced,
                                  inputs[k].relationshipId)
  {
    var placed := PlacedRows(inputs, c, fraction, pairGroup);
    ExcludedExactlyWhenSplit(placed, groups, c.enforced, k);
  }
}
