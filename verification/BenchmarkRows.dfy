/** Rows the split and leakage stages exchange. */
module BenchmarkRows {
  import opened Ordering
  import opened Wrappers

  datatype Partition = Train | Development | Test | Excluded

  /** The explicit leakage views, by what they hold together. */
  datatype GroupType =
    | DirectedPair
    | UnorderedPair
    | CanonicalBookPair
    | DuplicateRecords
    | SourceProvenance
    | Family
    | SharedEndpoint
    | SharedTarget
    | EndpointOverlap
    | TargetOverlap

  const DIRECTED_PAIR: string := "exact_directed_pair"
  const UNORDERED_PAIR: string := "exact_unordered_pair"
  const BOOK_PAIR: string := "canonical_book_pair"
  const DUPLICATE_RECORDS: string := "duplicate_source_records"
  const SOURCE_PROVENANCE: string := "shared_source_provenance"
  const FAMILY: string := "relationship_family"
  const SHARED_ENDPOINT: string := "shared_endpoint"
  const SHARED_TARGET: string := "shared_target_passage"
  const ENDPOINT_OVERLAP: string := "overlapping_endpoint_range"
  const TARGET_OVERLAP: string := "overlapping_target_passage"

  function Name(t: GroupType): string {
    match t
    case DirectedPair => DIRECTED_PAIR
    case UnorderedPair => UNORDERED_PAIR
    case CanonicalBookPair => BOOK_PAIR
    case DuplicateRecords => DUPLICATE_RECORDS
    case SourceProvenance => SOURCE_PROVENANCE
    case Family => FAMILY
    case SharedEndpoint => SHARED_ENDPOINT
    case SharedTarget => SHARED_TARGET
    case EndpointOverlap => ENDPOINT_OVERLAP
    case TargetOverlap => TARGET_OVERLAP
  }

  /** No two views have one name: length, first letter and thirteenth letter tell them apart. */
  lemma {:induction false} NamesDiffer(t: GroupType, u: GroupType)
    requires Name(t) == Name(u)
    ensures t == u
  {
    assert |Name(t)| == |Name(u)| && Name(t)[0] == Name(u)[0] && Name(t)[12] == Name(u)[12];
  }

  /** One relationship's membership in one explicit leakage group. */
  datatype GroupRow = GroupRow(groupId: Id, relationshipId: Id, groupType: string)

  /** One relationship's assignment under one split strategy.  The digest-valued assignment id and the
      version and configuration fields are copied constants and are not carried. */
  datatype AssignmentRow = AssignmentRow(
    relationshipId: Id,
    partition: Partition,
    leakageGroupId: Option<Id>,
    eligible: bool,
    exclusionReason: Option<string>)
}
