/** Split assignment of src/echoes/benchmarks/splits.py: leakage groups are joined into components by
    a disjoint-set forest and every member of a component receives the component's partition. */
module Splits {
  import opened Wrappers
  import opened Ordering
  import opened BenchmarkRows
  import opened Connectivity
  import opened DisjointSets
  import opened Dictionaries
  import Text

  datatype Strategy =
    | HeldOutBook
    | HeldOutBookPair
    | HeldOutSourcePassage
    | HeldOutRelationshipFamily
    | HeldOutGenre

  datatype SplitRelationship = SplitRelationship(
    relationshipId: Id,
    tier: int,
    mappingEligible: bool,
    endpointBooks: (string, string),
    endpointKeys: (string, string),
    broadGenres: (string, string),
    relationshipFamilyKey: Option<string>)

  datatype SplitDefinition = SplitDefinition(
    strategy: Strategy,
    heldOutValues: set<string>,
    includedTiers: set<int>,
    requireMapping: bool,
    enforcedGroupTypes: set<string>,
    heldOutPartition: Partition)

  datatype SplitError = DuplicateRelationshipIds

  const TIER_NOT_INCLUDED: string := "tier_not_included"
  const MAPPING_INELIGIBLE: string := "mapping_ineligible"
  const FAMILY_UNAVAILABLE: string := "relationship_family_unavailable"
  const INELIGIBLE_MEMBER: string := "leakage_group_contains_ineligible_member:"

  function BookPair(relationship: SplitRelationship): string {
    var (first, second) := relationship.endpointBooks;
    if Less(second, first) then second + "|" + first else first + "|" + second
  }

  /** The text names the two books, the smaller one first. */
  predicate IsBookPair(text: string, r: SplitRelationship) {
    var (first, second) := r.endpointBooks;
    || (AtMost(first, second) && text == first + "|" + second)
    || (AtMost(second, first) && text == second + "|" + first)
  }

  lemma {:induction false} PairIsBookPair(text: string, r: SplitRelationship)
    ensures IsBookPair(text, r) <==> text == BookPair(r)
  {
    var (first, second) := r.endpointBooks;
    LessIsTotal(first, second);
    if AtMost(first, second) && AtMost(second, first) { AtMostIsAntisymmetric(first, second); }
  }

  function RequiredGroupTypes(strategy: Strategy): set<string> {
    match strategy
    case HeldOutSourcePassage => {Name(UnorderedPair), Name(SharedEndpoint), Name(SharedTarget)}
    case HeldOutRelationshipFamily => {Name(UnorderedPair), Name(Family)}
    case _ => {Name(UnorderedPair)}
  }

  function EffectiveGroupTypes(definition: SplitDefinition): set<string> {
    definition.enforcedGroupTypes + RequiredGroupTypes(definition.strategy)
  }

  function BaseExclusionReason(relationship: SplitRelationship, definition: SplitDefinition): Option<string> {
    if relationship.tier !in definition.includedTiers then Some(TIER_NOT_INCLUDED)
    else if (definition.requireMapping || definition.strategy == HeldOutSourcePassage)
      && !relationship.mappingEligible then Some(MAPPING_INELIGIBLE)
    else if definition.strategy == HeldOutRelationshipFamily && relationship.relationshipFamilyKey.None? then
      Some(FAMILY_UNAVAILABLE)
    else None
  }

  function IsHeldOut(relationship: SplitRelationship, definition: SplitDefinition): bool {
    var held := definition.heldOutValues;
    match definition.strategy
    case HeldOutBook => relationship.endpointBooks.0 in held || relationship.endpointBooks.1 in held
    case HeldOutBookPair => BookPair(relationship) in held
    case HeldOutSourcePassage => relationship.endpointKeys.0 in held || relationship.endpointKeys.1 in held
    case HeldOutRelationshipFamily =>
      relationship.relationshipFamilyKey.Some? && relationship.relationshipFamilyKey.value in held
    case HeldOutGenre => relationship.broadGenres.0 in held || relationship.broadGenres.1 in held
  }

  // ----- Specification -----

  function RelationshipKey(): SplitRelationship -> Id {
    (x: SplitRelationship) => x.relationshipId
  }

  ghost predicate UniqueIds(relationships: seq<SplitRelationship>) {
    UniqueOn(relationships, RelationshipKey())
  }

  type Index = map<Id, SplitRelationship>

  ghost predicate IndexesExactly(byId: Index, relationships: set<SplitRelationship>) {
    && (forall r :: r in relationships ==> r.relationshipId in byId && byId[r.relationshipId] == r)
    && (forall x :: x in byId ==> byId[x] in relationships && byId[x].relationshipId == x)
  }

  /** The membership rows that a definition enforces among the known relationships. */
  ghost function Enforced(groups: set<GroupRow>, types: set<string>, ids: set<Id>): set<GroupRow> {
    set row | row in groups && row.groupType in types && row.relationshipId in ids
  }

  ghost function Component(ids: set<Id>, rows: set<GroupRow>, x: Id): set<Id> {
    set y | y in ids && Connected(rows, x, y)
  }

  datatype Decision = Decision(reason: Option<string>, partition: Partition)

  ghost function ExclusionReasons(members: set<Id>, byId: Index, definition: SplitDefinition): set<string>
    requires members <= byId.Keys
  {
    set y | y in members && BaseExclusionReason(byId[y], definition).Some? ::
      BaseExclusionReason(byId[y], definition).value
  }

  ghost predicate SomeHeldOut(members: set<Id>, byId: Index, definition: SplitDefinition)
    requires members <= byId.Keys
  {
    exists y :: y in members && IsHeldOut(byId[y], definition)
  }

  /** A component with an ineligible member is excluded; otherwise one held-out member holds all out. */
  ghost function ExpectedDecision(members: set<Id>, byId: Index, definition: SplitDefinition): Decision
    requires members <= byId.Keys
  {
    var reasons := ExclusionReasons(members, byId, definition);
    if reasons != {} then Decision(Some(Text.Join(Enumeration(reasons), ";")), Excluded)
    else Decision(None, if SomeHeldOut(members, byId, definition) then definition.heldOutPartition else Train)
  }

  ghost function GroupsOf(rows: set<GroupRow>, x: Id): set<Id> {
    set row | row in rows && row.relationshipId == x :: row.groupId
  }

  function RowReason(own: Option<string>, component: Option<string>): Option<string> {
    if component.Some? && own.None? then Some(INELIGIBLE_MEMBER + component.value)
    else component
  }

  ghost function ExpectedRow(byId: Index, rows: set<GroupRow>, definition: SplitDefinition, x: Id): AssignmentRow
    requires x in byId
  {
    var decision := ExpectedDecision(Component(byId.Keys, rows, x), byId, definition);
    var reason := RowReason(BaseExclusionReason(byId[x], definition), decision.reason);
    var groupIds := Enumeration(GroupsOf(rows, x));
    AssignmentRow(x, decision.partition, if groupIds == [] then None else Some(groupIds[0]), reason.None?, reason)
  }

  /** One row per relationship, in identifier order.  It mentions only sets, never input order. */
  ghost predicate ExpectedRows(assignments: seq<AssignmentRow>, byId: Index, rows: set<GroupRow>,
                               definition: SplitDefinition) {
    && |assignments| == |Enumeration(byId.Keys)|
    && forall k :: 0 <= k < |assignments| ==>
         Enumeration(byId.Keys)[k] in Elements(Enumeration(byId.Keys))
         && assignments[k] == ExpectedRow(byId, rows, definition, Enumeration(byId.Keys)[k])
  }

  // ----- Indexing the inputs -----

  lemma {:induction false} IndexIsExact(s: seq<SplitRelationship>)
    requires UniqueIds(s)
    ensures IndexesExactly(IndexOn(s, RelationshipKey()), Elements(s))
  {
    var byId := IndexOn(s, RelationshipKey());
    forall r | r in Elements(s) ensures r.relationshipId in byId && byId[r.relationshipId] == r {
      var k :| 0 <= k < |s| && s[k] == r;
      IndexHoldsEntry(s, RelationshipKey(), k);
    }
    forall x | x in byId ensures byId[x] in Elements(s) && byId[x].relationshipId == x {
      IndexEntryListed(s, RelationshipKey(), x);
    }
  }

  method IndexById(ordered: seq<SplitRelationship>) returns (byId: Index)
    ensures UniqueIds(ordered) <==> |byId| == |ordered|
    ensures UniqueIds(ordered) ==> IndexesExactly(byId, Elements(ordered))
  {
    byId := map[];
    for i := 0 to |ordered|
      invariant byId == IndexOn(ordered[..i], RelationshipKey())
    {
      assert ordered[..i + 1][..i] == ordered[..i];
      byId := byId[ordered[i].relationshipId := ordered[i]];
    }
    assert ordered[..|ordered|] == ordered;
    IndexDetectsDuplicates(ordered, RelationshipKey());
    if UniqueIds(ordered) {
      IndexIsExact(ordered);
    }
  }

  ghost predicate HasRow(rows: seq<GroupRow>, g: Id, x: Id) {
    exists k :: 0 <= k < |rows| && rows[k].groupId == g && rows[k].relationshipId == x
  }

  /** `group_members` and `relationship_groups`, with the keys of the first in insertion order. */
  method CollectMemberships(rows: seq<GroupRow>)
    returns (order: seq<Id>, members: map<Id, seq<Id>>, groupsOf: map<Id, seq<Id>>)
    ensures forall g :: g in order <==> g in members
    ensures forall g :: g in members ==> members[g] != []
    ensures forall g, x :: HasRow(rows, g, x) <==> Holds(members, g, x)
    ensures forall g, x :: HasRow(rows, g, x) <==> Holds(groupsOf, x, g)
  {
    order, members, groupsOf := [], map[], map[];
    for i := 0 to |rows|
      invariant forall g :: g in order <==> g in members
      invariant forall g :: g in members ==> members[g] != []
      invariant forall g, x :: HasRow(rows[..i], g, x) <==> Holds(members, g, x)
      invariant forall g, x :: HasRow(rows[..i], g, x) <==> Holds(groupsOf, x, g)
    {
      var g, x := rows[i].groupId, rows[i].relationshipId;
      HasRowStep(rows, i);
      if g !in members {
        order := order + [g];
      }
      members := Append(members, g, x);
      groupsOf := Append(groupsOf, x, g);
    }
    assert rows[..|rows|] == rows;
  }

  lemma {:induction false} HasRowStep(rows: seq<GroupRow>, i: nat)
    requires i < |rows|
    ensures forall g, x :: HasRow(rows[..i + 1], g, x) <==>
              HasRow(rows[..i], g, x) || (g == rows[i].groupId && x == rows[i].relationshipId)
  {
    var before, after := rows[..i], rows[..i + 1];
    forall g, x
      ensures HasRow(after, g, x) <==> HasRow(before, g, x) || (g == rows[i].groupId && x == rows[i].relationshipId)
    {
      if HasRow(before, g, x) {
        var k :| 0 <= k < |before| && before[k].groupId == g && before[k].relationshipId == x;
        assert after[k] == before[k];
      }
      if g == rows[i].groupId && x == rows[i].relationshipId {
        assert after[i] == rows[i];
      }
      if HasRow(after, g, x) {
        var k :| 0 <= k < |after| && after[k].groupId == g && after[k].relationshipId == x;
        if k < i { assert before[k] == after[k]; }
      }
    }
  }

  lemma {:induction false} HasRowIsMembership(rows: seq<GroupRow>, g: Id, x: Id)
    ensures HasRow(rows, g, x) <==> exists row :: row in Elements(rows) && row.groupId == g && row.relationshipId == x
  {
    if HasRow(rows, g, x) {
      var k :| 0 <= k < |rows| && rows[k].groupId == g && rows[k].relationshipId == x;
      assert rows[k] in Elements(rows);
    }
    if row :| row in Elements(rows) && row.groupId == g && row.relationshipId == x {
      var k :| 0 <= k < |rows| && rows[k] == row;
    }
  }

  lemma {:induction false} LinkedThroughGroup(rows: seq<GroupRow>, g: Id, x: Id, y: Id)
    requires HasRow(rows, g, x) && HasRow(rows, g, y)
    ensures Linked(Elements(rows), x, y)
  {
    HasRowIsMembership(rows, g, x);
    HasRowIsMembership(rows, g, y);
  }

  // ----- Joining groups -----

  /** Equal labels are justified by a chain of shared groups. */
  ghost predicate Sound(c: map<Id, Id>, rows: set<GroupRow>) {
    forall x, y :: IsJustified(c, rows, x, y)
  }

  ghost predicate IsJustified(c: map<Id, Id>, rows: set<GroupRow>, x: Id, y: Id) {
    x in c && y in c && c[x] == c[y] ==> Connected(rows, x, y)
  }

  /** Each of the first n members carries the first one's label. */
  ghost predicate Joined(c: map<Id, Id>, members: seq<Id>, n: nat)
    requires n <= |members|
  {
    forall k :: 0 <= k < n ==> IsJoined(c, members, k)
  }

  ghost predicate IsJoined(c: map<Id, Id>, members: seq<Id>, k: nat)
    requires k < |members|
  {
    members[0] in c && members[k] in c && c[members[k]] == c[members[0]]
  }

  lemma {:induction false} MergeStaysSound(c: map<Id, Id>, rows: set<GroupRow>, a: Id, b: Id)
    requires Sound(c, rows) && a in c && b in c && Connected(rows, a, b)
    ensures Sound(Merged(c, a, b), rows)
  {
    var after := Merged(c, a, b);
    ConnectedSymmetric(rows, a, b);
    forall x, y ensures IsJustified(after, rows, x, y) {
      assert IsJustified(c, rows, x, y);
      if x in after && y in after && after[x] == after[y] && c[x] != c[y] {
        var p := if c[x] == c[a] then a else b;
        var q := if c[y] == c[a] then a else b;
        assert IsJustified(c, rows, x, p) && IsJustified(c, rows, q, y);
        ConnectedTransitive(rows, x, p, q);
        ConnectedTransitive(rows, x, q, y);
      }
    }
  }

  ghost predicate AllKnown(c: map<Id, Id>, group: seq<Id>) {
    forall k :: 0 <= k < |group| ==> group[k] in c
  }

  ghost predicate KnownMembers(c: map<Id, Id>, members: map<Id, seq<Id>>) {
    forall g, x :: IsKnownMember(c, members, g, x)
  }

  ghost predicate IsKnownMember(c: map<Id, Id>, members: map<Id, seq<Id>>, g: Id, x: Id) {
    Holds(members, g, x) ==> x in c
  }

  lemma {:induction false} KnownGroup(c: map<Id, Id>, members: map<Id, seq<Id>>, g: Id)
    requires KnownMembers(c, members) && g in members
    ensures AllKnown(c, members[g])
  {
    forall k | 0 <= k < |members[g]| ensures members[g][k] in c {
      assert IsKnownMember(c, members, g, members[g][k]);
    }
  }

  ghost predicate AllListed(order: seq<Id>, members: map<Id, seq<Id>>) {
    forall k :: 0 <= k < |order| ==> order[k] in members
  }

  /** Labels that were equal stay equal. */
  ghost predicate Coarser(c: map<Id, Id>, d: map<Id, Id>) {
    c.Keys == d.Keys && forall x, y :: StaysEqual(c, d, x, y)
  }

  ghost predicate StaysEqual(c: map<Id, Id>, d: map<Id, Id>, x: Id, y: Id) {
    x in c && y in c && c[x] == c[y] ==> x in d && y in d && d[x] == d[y]
  }

  lemma {:induction false} MergeIsCoarser(c: map<Id, Id>, a: Id, b: Id)
    requires a in c && b in c
    ensures Coarser(c, Merged(c, a, b)) && Merged(c, a, b)[a] == Merged(c, a, b)[b]
  {
  }

  lemma {:induction false} CoarserIsTransitive(c: map<Id, Id>, d: map<Id, Id>, e: map<Id, Id>)
    requires Coarser(c, d) && Coarser(d, e)
    ensures Coarser(c, e)
  {
    forall x, y ensures StaysEqual(c, e, x, y) {
      assert StaysEqual(c, d, x, y) && StaysEqual(d, e, x, y);
    }
  }

  lemma {:induction false} CoarserKeepsJoined(c: map<Id, Id>, d: map<Id, Id>, members: seq<Id>, n: nat)
    requires n <= |members| && Coarser(c, d) && Joined(c, members, n)
    ensures Joined(d, members, n)
  {
    forall k | 0 <= k < n ensures IsJoined(d, members, k) {
      assert IsJoined(c, members, k) && StaysEqual(c, d, members[k], members[0]);
    }
  }

  ghost predicate AllLinked(rows: set<GroupRow>, group: seq<Id>) {
    forall k :: 0 <= k < |group| ==> Linked(rows, group[0], group[k])
  }

  ghost predicate AllJoined(c: map<Id, Id>, order: seq<Id>, members: map<Id, seq<Id>>, n: nat)
    requires AllListed(order, members) && n <= |order|
  {
    forall k :: 0 <= k < n ==> Joined(c, members[order[k]], |members[order[k]]|)
  }

  lemma {:induction false} CoarserKeepsAllJoined(c: map<Id, Id>, d: map<Id, Id>, order: seq<Id>,
                                                 members: map<Id, seq<Id>>, n: nat)
    requires AllListed(order, members) && n <= |order| && Coarser(c, d) && AllJoined(c, order, members, n)
    ensures AllJoined(d, order, members, n)
  {
    forall k | 0 <= k < n ensures Joined(d, members[order[k]], |members[order[k]]|) {
      CoarserKeepsJoined(c, d, members[order[k]], |members[order[k]]|);
    }
  }

  /** Members of one group are linked. */
  ghost predicate GroupsAreLinked(members: map<Id, seq<Id>>, rows: set<GroupRow>) {
    forall g, x, y :: SharersAreLinked(members, rows, g, x, y)
  }

  ghost predicate SharersAreLinked(members: map<Id, seq<Id>>, rows: set<GroupRow>, g: Id, x: Id, y: Id) {
    Holds(members, g, x) && Holds(members, g, y) ==> Linked(rows, x, y)
  }

  lemma {:induction false} GroupIsLinked(members: map<Id, seq<Id>>, g: Id, rows: set<GroupRow>)
    requires GroupsAreLinked(members, rows) && g in members
    ensures AllLinked(rows, members[g])
  {
    forall k | 0 <= k < |members[g]| ensures Linked(rows, members[g][0], members[g][k]) {
      assert SharersAreLinked(members, rows, g, members[g][0], members[g][k]);
    }
  }

  /** One union of linked identifiers. */
  lemma {:induction false} MergeJoins(start: map<Id, Id>, c: map<Id, Id>, group: seq<Id>, n: nat, rows: set<GroupRow>)
    requires AllKnown(c, group) && AllLinked(rows, group) && 1 <= n < |group|
    requires Sound(c, rows) && Coarser(start, c) && Joined(c, group, n)
    ensures var d := Merged(c, group[0], group[n]);
            Sound(d, rows) && Coarser(start, d) && Joined(d, group, n + 1)
  {
    var d := Merged(c, group[0], group[n]);
    LinkedIsConnected(rows, group[0], group[n]);
    MergeStaysSound(c, rows, group[0], group[n]);
    MergeIsCoarser(c, group[0], group[n]);
    CoarserIsTransitive(start, c, d);
    CoarserKeepsJoined(c, d, group, n);
    assert IsJoined(d, group, n);
  }

  lemma {:induction false} CoarserKeepsKnown(c: map<Id, Id>, d: map<Id, Id>, group: seq<Id>)
    requires AllKnown(c, group) && Coarser(c, d)
    ensures AllKnown(d, group)
  {
  }

  lemma {:induction false} CoarserIsReflexive(c: map<Id, Id>)
    ensures Coarser(c, c)
  {
  }

  /** The inner loop: unite a group's first member with every other member. */
  method JoinGroup(disjoint: DisjointSet, group: seq<Id>, ghost rows: set<GroupRow>)
    requires Forest(disjoint.parent) && AllKnown(Roots(disjoint.parent), group) && group != []
    requires AllLinked(rows, group) && Sound(Roots(disjoint.parent), rows)
    modifies disjoint
    ensures Forest(disjoint.parent) && Sound(Roots(disjoint.parent), rows)
    ensures Coarser(old(Roots(disjoint.parent)), Roots(disjoint.parent))
    ensures Joined(Roots(disjoint.parent), group, |group|)
  {
    ghost var before := Roots(disjoint.parent);
    CoarserIsReflexive(before);
    for j := 1 to |group|
      invariant Forest(disjoint.parent) && Sound(Roots(disjoint.parent), rows)
      invariant Coarser(before, Roots(disjoint.parent)) && Joined(Roots(disjoint.parent), group, j)
    {
      CoarserKeepsKnown(before, Roots(disjoint.parent), group);
      MergeJoins(before, Roots(disjoint.parent), group, j, rows);
      disjoint.Union(group[0], group[j]);
    }
  }

  /** The outer loop: no label is split, every group is joined, and equal labels stay justified. */
  method UnionGroups(disjoint: DisjointSet, order: seq<Id>, members: map<Id, seq<Id>>, ghost rows: set<GroupRow>)
    requires Forest(disjoint.parent) && KnownMembers(Roots(disjoint.parent), members) && AllListed(order, members)
    requires forall g :: g in members ==> members[g] != []
    requires GroupsAreLinked(members, rows) && Sound(Roots(disjoint.parent), rows)
    modifies disjoint
    ensures Forest(disjoint.parent) && Sound(Roots(disjoint.parent), rows)
    ensures Roots(disjoint.parent).Keys == old(Roots(disjoint.parent)).Keys
    ensures AllJoined(Roots(disjoint.parent), order, members, |order|)
  {
    ghost var before := Roots(disjoint.parent);
    CoarserIsReflexive(before);
    for i := 0 to |order|
      invariant Forest(disjoint.parent) && Sound(Roots(disjoint.parent), rows)
      invariant Coarser(before, Roots(disjoint.parent)) && AllJoined(Roots(disjoint.parent), order, members, i)
    {
      ghost var c := Roots(disjoint.parent);
      KnownGroup(before, members, order[i]);
      CoarserKeepsKnown(before, c, members[order[i]]);
      GroupIsLinked(members, order[i], rows);
      JoinGroup(disjoint, members[order[i]], rows);
      CoarserIsTransitive(before, c, Roots(disjoint.parent));
      CoarserKeepsAllJoined(c, Roots(disjoint.parent), order, members, i);
    }
  }

  /** The labels are exactly connectivity: equal roots if and only if a chain of enforced groups. */
  lemma {:induction false} LabelsAreConnectivity(c: map<Id, Id>, rows: set<GroupRow>, x: Id, y: Id)
    requires Sound(c, rows)
    requires forall p, q :: p in rows && q in rows && p.groupId == q.groupId ==>
               p.relationshipId in c && q.relationshipId in c && c[p.relationshipId] == c[q.relationshipId]
    requires x in c && y in c
    ensures c[x] == c[y] <==> Connected(rows, x, y)
  {
    assert IsJustified(c, rows, x, y);
    if path :| ChainBetween(rows, path, x, y) {
      ConstantAlongChain(rows, path, c);
    }
  }

  // ----- Deciding components -----

  /** The identifiers with a label, in the order they are listed. */
  function LabelledIn(ids: seq<Id>, c: map<Id, Id>, root: Id): seq<Id> {
    if ids == [] then []
    else
      var last := ids[|ids| - 1];
      LabelledIn(ids[..|ids| - 1], c, root) + if last in c && c[last] == root then [last] else []
  }

  lemma {:induction false} LabelledContents(ids: seq<Id>, c: map<Id, Id>, root: Id)
    ensures forall x :: x in LabelledIn(ids, c, root) <==> x in ids && x in c && c[x] == root
  {
    if ids != [] {
      var front, last := ids[..|ids| - 1], ids[|ids| - 1];
      LabelledContents(front, c, root);
      assert ids == front + [last];
    }
  }

  /** Listed from identifiers in order, the members of a component are in identifier order. */
  lemma {:induction false} LabelledAscend(ids: seq<Id>, c: map<Id, Id>, root: Id)
    requires Ascending(ids)
    ensures Ascending(LabelledIn(ids, c, root))
  {
    if ids != [] {
      var front, last := ids[..|ids| - 1], ids[|ids| - 1];
      LabelledAscend(front, c, root);
      LabelledContents(front, c, root);
      var members := LabelledIn(front, c, root);
      forall k | 0 <= k < |members| ensures Less(members[k], last) {
        assert members[k] in front;
      }
    }
  }

  /** Each root lists its members, and every listed root has some. */
  ghost predicate ListsComponents(components: map<Id, seq<Id>>, ids: seq<Id>, c: map<Id, Id>) {
    forall r :: Get(components, r) == LabelledIn(ids, c, r)
  }

  lemma {:induction false} NextComponent(components: map<Id, seq<Id>>, ids: seq<Id>, i: nat, c: map<Id, Id>)
    requires i < |ids| && ids[i] in c && ListsComponents(components, ids[..i], c)
    ensures ListsComponents(Append(components, c[ids[i]], ids[i]), ids[..i + 1], c)
  {
    assert ids[..i + 1][..i] == ids[..i];
    var after := Append(components, c[ids[i]], ids[i]);
    forall r
      ensures Get(after, r) == LabelledIn(ids[..i + 1], c, r)
    {
      assert Get(components, r) == LabelledIn(ids[..i], c, r);
    }
  }

  /** `components`: the members of each root, in identifier order. */
  method CollectComponents(disjoint: DisjointSet, ids: seq<Id>, ghost c: map<Id, Id>)
    returns (order: seq<Id>, components: map<Id, seq<Id>>)
    requires Forest(disjoint.parent) && Roots(disjoint.parent) == c
    requires forall k :: 0 <= k < |ids| ==> ids[k] in c
    modifies disjoint
    ensures Forest(disjoint.parent) && Roots(disjoint.parent) == c
    ensures forall r :: r in order <==> r in components
    ensures ListsComponents(components, ids, c)
  {
    order, components := [], map[];
    for i := 0 to |ids|
      invariant Forest(disjoint.parent) && Roots(disjoint.parent) == c
      invariant forall r :: r in order <==> r in components
      invariant ListsComponents(components, ids[..i], c)
    {
      var root := FindLabel(disjoint, ids[i], c);
      NextComponent(components, ids, i, c);
      if root !in components {
        order := order + [root];
      }
      components := Append(components, root, ids[i]);
    }
    assert ids[..|ids|] == ids;
  }

  lemma {:induction false} ComponentsHold(components: map<Id, seq<Id>>, ids: seq<Id>, c: map<Id, Id>)
    requires ListsComponents(components, ids, c)
    ensures forall r, x :: Holds(components, r, x) <==> x in ids && x in c && c[x] == r
  {
    forall r, x
      ensures Holds(components, r, x) <==> x in ids && x in c && c[x] == r
    {
      LabelledContents(ids, c, r);
      assert Holds(components, r, x) <==> x in Get(components, r);
    }
  }

  function ReasonList(members: seq<Id>, base: map<Id, Option<string>>): seq<string>
    requires forall k :: 0 <= k < |members| ==> members[k] in base
  {
    if members == [] then []
    else (if base[members[0]].Some? then [base[members[0]].value] else []) + ReasonList(members[1..], base)
  }

  lemma {:induction false} ReasonListContents(members: seq<Id>, base: map<Id, Option<string>>, reason: string)
    requires forall k :: 0 <= k < |members| ==> members[k] in base
    ensures reason in ReasonList(members, base) <==> exists y :: y in members && base[y] == Some(reason)
  {
    if members != [] {
      ReasonListContents(members[1..], base, reason);
      assert members == [members[0]] + members[1..];
    }
  }

  function DecideComponent(members: seq<Id>, byId: Index, base: map<Id, Option<string>>, definition: SplitDefinition)
      : Decision
    requires forall k :: 0 <= k < |members| ==> members[k] in base && members[k] in byId
  {
    var reasons := SortedDistinct(ReasonList(members, base));
    if reasons != [] then Decision(Some(Text.Join(reasons, ";")), Excluded)
    else if exists k :: 0 <= k < |members| && IsHeldOut(byId[members[k]], definition) then
      Decision(None, definition.heldOutPartition)
    else Decision(None, Train)
  }

  lemma {:induction false} DecisionMeetsSpecification(members: seq<Id>, byId: Index, base: map<Id, Option<string>>,
                                                      definition: SplitDefinition, component: set<Id>)
    requires base == map x | x in byId :: BaseExclusionReason(byId[x], definition)
    requires component == Elements(members) && component <= byId.Keys
    ensures forall k :: 0 <= k < |members| ==> members[k] in base && members[k] in byId
    ensures DecideComponent(members, byId, base, definition) == ExpectedDecision(component, byId, definition)
  {
    assert forall k :: 0 <= k < |members| ==> members[k] in component;
    var reasons := ReasonList(members, base);
    forall reason ensures reason in Elements(reasons) <==> reason in ExclusionReasons(component, byId, definition) {
      ReasonListContents(members, base, reason);
    }
    assert Elements(reasons) == ExclusionReasons(component, byId, definition);
    SortedDistinctIsEnumeration(reasons);
    assert SortedDistinct(reasons) != [] <==> Elements(SortedDistinct(reasons)) != {} by {
      if SortedDistinct(reasons) != [] {
        assert SortedDistinct(reasons)[0] in Elements(SortedDistinct(reasons));
      }
    }
    if SomeHeldOut(component, byId, definition) {
      var y :| y in component && IsHeldOut(byId[y], definition);
      var k :| 0 <= k < |members| && members[k] == y;
    }
  }

  /** The component decision loop, over the roots in sorted order. */
  method DecideComponents(roots: seq<Id>, components: map<Id, seq<Id>>, byId: Index, definition: SplitDefinition,
                          base: map<Id, Option<string>>)
    returns (decisions: map<Id, Decision>)
    requires base == map x | x in byId :: BaseExclusionReason(byId[x], definition)
    requires forall k :: 0 <= k < |roots| ==> roots[k] in components && Elements(components[roots[k]]) <= byId.Keys
    ensures forall k :: 0 <= k < |roots| ==>
              && roots[k] in decisions
              && decisions[roots[k]] == ExpectedDecision(Elements(components[roots[k]]), byId, definition)
  {
    decisions := map[];
    for i := 0 to |roots|
      invariant forall k :: 0 <= k < i ==>
                  && roots[k] in decisions
                  && decisions[roots[k]] == ExpectedDecision(Elements(components[roots[k]]), byId, definition)
    {
      var members := components[roots[i]];
      DecisionMeetsSpecification(members, byId, base, definition, Elements(members));
      decisions := decisions[roots[i] := DecideComponent(members, byId, base, definition)];
    }
  }

  /** The leading group of a row, `sorted(set(relationship_groups.get(id, [])))[0]` when there is one. */
  function LeadingGroup(groupsOf: map<Id, seq<Id>>, x: Id): Option<Id> {
    var groupIds := SortedDistinct(if x in groupsOf then groupsOf[x] else []);
    if groupIds == [] then None else Some(groupIds[0])
  }

  lemma {:induction false} LeadingGroupMeetsSpecification(rows: seq<GroupRow>, groupsOf: map<Id, seq<Id>>, x: Id)
    requires forall g :: HasRow(rows, g, x) <==> Holds(groupsOf, x, g)
    ensures LeadsWith(LeadingGroup(groupsOf, x), GroupsOf(Elements(rows), x))
  {
    var listed := if x in groupsOf then groupsOf[x] else [];
    forall g ensures g in Elements(listed) <==> g in GroupsOf(Elements(rows), x) {
      HasRowIsMembership(rows, g, x);
      assert HasRow(rows, g, x) <==> Holds(groupsOf, x, g);
    }
    assert Elements(listed) == GroupsOf(Elements(rows), x);
    SortedDistinctIsEnumeration(listed);
  }

  // ----- The whole assignment -----

  function EnforcedRows(groups: seq<GroupRow>, types: set<string>, ids: set<Id>): seq<GroupRow> {
    if groups == [] then []
    else
      (if groups[0].groupType in types && groups[0].relationshipId in ids then [groups[0]] else [])
      + EnforcedRows(groups[1..], types, ids)
  }

  lemma {:induction false} EnforcedRowsContents(groups: seq<GroupRow>, types: set<string>, ids: set<Id>)
    ensures Elements(EnforcedRows(groups, types, ids)) == Enforced(Elements(groups), types, ids)
  {
    if groups != [] {
      EnforcedRowsContents(groups[1..], types, ids);
      assert groups == [groups[0]] + groups[1..];
      var head := if groups[0].groupType in types && groups[0].relationshipId in ids then [groups[0]] else [];
      var rest := EnforcedRows(groups[1..], types, ids);
      assert Elements(head + rest) == Elements(head) + Elements(rest);
    }
  }

  function GroupKey(): GroupRow -> Id {
    (x: GroupRow) => x.groupId
  }

  function MemberKey(): GroupRow -> Id {
    (x: GroupRow) => x.relationshipId
  }

  /** What a call must return.  It names only sets, so neither input's order can matter. */
  ghost predicate IsSplitResult(r: Result<seq<AssignmentRow>, SplitError>, relationships: seq<SplitRelationship>,
                                leakageGroups: seq<GroupRow>, definition: SplitDefinition) {
    && (r.Failure? <==> !UniqueIds(relationships))
    && (r.Success? ==>
          forall byId :: IndexesExactly(byId, Elements(relationships)) ==>
            ExpectedRows(r.value, byId,
              Enforced(Elements(leakageGroups), EffectiveGroupTypes(definition), byId.Keys), definition))
  }

  method GenerateSplitAssignments(relationships: seq<SplitRelationship>, leakageGroups: seq<GroupRow>,
                                  definition: SplitDefinition)
    returns (r: Result<seq<AssignmentRow>, SplitError>)
    ensures IsSplitResult(r, relationships, leakageGroups, definition)
  {
    var ordered := SortOn(relationships, RelationshipKey());
    SortingKeepsRelationships(relationships, ordered);
    var byId := IndexById(ordered);
    if |byId| != |ordered| {
      return Failure(DuplicateRelationshipIds);
    }
    var ids := seq(|ordered|, k requires 0 <= k < |ordered| => ordered[k].relationshipId);
    IdsEnumerateIndex(ordered, ids, byId);
    var filtered := EnforcedRows(leakageGroups, EffectiveGroupTypes(definition), byId.Keys);
    var enforced := SortOn(SortOn(filtered, MemberKey()), GroupKey());
    EnforcedIsFiltered(leakageGroups, EffectiveGroupTypes(definition), byId.Keys, enforced);
    var assignments := AssignComponents(ids, byId, enforced, definition);
    forall other | IndexesExactly(other, Elements(relationships)) ensures other == byId {
      IndexIsUnique(byId, other, Elements(relationships));
    }
    r := Success(assignments);
  }

  lemma {:induction false} SortingKeepsRelationships(relationships: seq<SplitRelationship>,
                                                     ordered: seq<SplitRelationship>)
    requires multiset(relationships) == multiset(ordered)
    ensures Elements(relationships) == Elements(ordered)
    ensures UniqueIds(relationships) <==> UniqueIds(ordered)
  {
    PermutationKeepsElements(ordered, relationships);
    if UniqueIds(ordered) { UniqueOnPermutation(ordered, relationships, RelationshipKey()); }
    if UniqueIds(relationships) { UniqueOnPermutation(relationships, ordered, RelationshipKey()); }
  }

  lemma {:induction false} EnforcedIsFiltered(groups: seq<GroupRow>, types: set<string>, ids: set<Id>,
                                              enforced: seq<GroupRow>)
    requires multiset(enforced) == multiset(EnforcedRows(groups, types, ids))
    ensures Elements(enforced) == Enforced(Elements(groups), types, ids)
    ensures forall k :: 0 <= k < |enforced| ==> enforced[k].relationshipId in ids
  {
    PermutationKeepsElements(enforced, EnforcedRows(groups, types, ids));
    EnforcedRowsContents(groups, types, ids);
    assert forall k :: 0 <= k < |enforced| ==> enforced[k] in Elements(enforced);
  }

  method AssignComponents(ids: seq<Id>, byId: Index, enforced: seq<GroupRow>, definition: SplitDefinition)
    returns (assignments: seq<AssignmentRow>)
    requires ids == Enumeration(byId.Keys)
    requires forall k :: 0 <= k < |enforced| ==> enforced[k].relationshipId in byId
    ensures ExpectedRows(assignments, byId, Elements(enforced), definition)
  {
    EnumerationCovers(byId.Keys);
    var groupOrder, members, groupsOf := CollectMemberships(enforced);
    var disjoint := JoinedForest(ids, groupOrder, members, enforced);
    ghost var c := Roots(disjoint.parent);
    var base := map x | x in byId :: BaseExclusionReason(byId[x], definition);
    var decisions := DecideByRoot(disjoint, ids, byId, Elements(enforced), base, definition);
    DecisionsCover(decisions, c, ids, byId, Elements(enforced), definition);
    assignments := RenderRows(disjoint, ids, base, decisions, groupsOf, c);
    RowsMeetSpecification(ids, byId, enforced, c, decisions, groupsOf, definition, assignments);
  }

  lemma {:induction false} DecisionsCover(decisions: map<Id, Decision>, c: map<Id, Id>, ids: seq<Id>, byId: Index,
                                          rows: set<GroupRow>, definition: SplitDefinition)
    requires DecidesEach(decisions, c, ids, byId, rows, definition) && ids == Enumeration(byId.Keys)
    ensures forall k :: 0 <= k < |ids| ==> ids[k] in byId && ids[k] in c && c[ids[k]] in decisions
  {
    EnumerationCovers(byId.Keys);
    forall k | 0 <= k < |ids| ensures ids[k] in byId && ids[k] in c && c[ids[k]] in decisions {
      assert ids[k] in ids;
    }
  }

  lemma {:induction false} RowsMeetSpecification(ids: seq<Id>, byId: Index, enforced: seq<GroupRow>, c: map<Id, Id>,
                                                 decisions: map<Id, Decision>, groupsOf: map<Id, seq<Id>>,
                                                 definition: SplitDefinition, assignments: seq<AssignmentRow>)
    requires ids == Enumeration(byId.Keys)
    requires DecidesEach(decisions, c, ids, byId, Elements(enforced), definition)
    requires forall g, x :: HasRow(enforced, g, x) <==> Holds(groupsOf, x, g)
    requires |assignments| == |ids|
    requires forall k :: 0 <= k < |ids| ==>
               && ids[k] in byId && ids[k] in c && c[ids[k]] in decisions
               && assignments[k] == RowFor(ids[k], BaseExclusionReason(byId[ids[k]], definition), decisions[c[ids[k]]],
                                           LeadingGroup(groupsOf, ids[k]))
    ensures ExpectedRows(assignments, byId, Elements(enforced), definition)
  {
    EnumerationCovers(byId.Keys);
    forall k | 0 <= k < |ids| ensures assignments[k] == ExpectedRow(byId, Elements(enforced), definition, ids[k]) {
      assert ids[k] in ids;
      LeadingGroupMeetsSpecification(enforced, groupsOf, ids[k]);
    }
  }

  lemma {:induction false} EnumerationCovers(keys: set<Id>)
    ensures forall x :: x in Enumeration(keys) <==> x in keys
    ensures forall k :: 0 <= k < |Enumeration(keys)| ==> Enumeration(keys)[k] in Elements(Enumeration(keys))
  {
    assert forall x :: x in Enumeration(keys) <==> x in Elements(Enumeration(keys));
  }

  /** The labels of a forest are exactly connectivity through the enforced rows. */
  ghost predicate LabelsConnect(c: map<Id, Id>, ids: seq<Id>, rows: set<GroupRow>) {
    && c.Keys == Elements(ids)
    && forall x, y :: x in ids && y in ids ==> (c[x] == c[y] <==> Connected(rows, x, y))
  }

  ghost predicate DecidesEach(decisions: map<Id, Decision>, c: map<Id, Id>, ids: seq<Id>, byId: Index,
                              rows: set<GroupRow>, definition: SplitDefinition) {
    forall x :: x in ids ==>
      && x in c && c[x] in decisions
      && decisions[c[x]] == ExpectedDecision(Component(byId.Keys, rows, x), byId, definition)
  }

  method DecideByRoot(disjoint: DisjointSet, ids: seq<Id>, byId: Index, ghost rows: set<GroupRow>,
                      base: map<Id, Option<string>>, definition: SplitDefinition)
    returns (decisions: map<Id, Decision>)
    requires Forest(disjoint.parent) && LabelsConnect(Roots(disjoint.parent), ids, rows)
    requires Elements(ids) == byId.Keys
    requires base == map x | x in byId :: BaseExclusionReason(byId[x], definition)
    modifies disjoint
    ensures Forest(disjoint.parent) && Roots(disjoint.parent) == old(Roots(disjoint.parent))
    ensures DecidesEach(decisions, Roots(disjoint.parent), ids, byId, rows, definition)
  {
    ghost var c := Roots(disjoint.parent);
    assert forall k :: 0 <= k < |ids| ==> ids[k] in Elements(ids);
    var rootOrder, components := CollectComponents(disjoint, ids, c);
    ComponentsHold(components, ids, c);
    decisions := DecideRoots(rootOrder, components, ids, byId, c, rows, base, definition);
  }

  method DecideRoots(rootOrder: seq<Id>, components: map<Id, seq<Id>>, ids: seq<Id>, byId: Index, ghost c: map<Id, Id>,
                     ghost rows: set<GroupRow>, base: map<Id, Option<string>>, definition: SplitDefinition)
    returns (decisions: map<Id, Decision>)
    requires LabelsConnect(c, ids, rows) && Elements(ids) == byId.Keys
    requires base == map x | x in byId :: BaseExclusionReason(byId[x], definition)
    requires forall r :: r in rootOrder <==> r in components
    requires forall r, x :: Holds(components, r, x) <==> x in ids && x in c && c[x] == r
    ensures DecidesEach(decisions, c, ids, byId, rows, definition)
  {
    ComponentsAreConnected(c, rows, ids, components, byId);
    var roots := SortedDistinct(rootOrder);
    assert forall k :: 0 <= k < |roots| ==> roots[k] in Elements(roots);
    decisions := DecideComponents(roots, components, byId, definition, base);
    forall x | x in ids
      ensures x in c && c[x] in decisions
      ensures decisions[c[x]] == ExpectedDecision(Component(byId.Keys, rows, x), byId, definition)
    {
      assert x in Elements(ids) && c[x] in components && c[x] in Elements(rootOrder);
      var k :| 0 <= k < |roots| && roots[k] == c[x];
    }
  }

  ghost predicate LeadsWith(leading: Option<Id>, groups: set<Id>) {
    var groupIds := Enumeration(groups);
    leading == if groupIds == [] then None else Some(groupIds[0])
  }

  function RowFor(x: Id, own: Option<string>, decision: Decision, leading: Option<Id>): AssignmentRow {
    var reason := RowReason(own, decision.reason);
    AssignmentRow(x, decision.partition, leading, reason.None?, reason)
  }

  method FindLabel(disjoint: DisjointSet, x: Id, ghost c: map<Id, Id>) returns (root: Id)
    requires Forest(disjoint.parent) && Roots(disjoint.parent) == c && x in c
    modifies disjoint
    ensures Forest(disjoint.parent) && Roots(disjoint.parent) == c && root == c[x]
  {
    assert x in Roots(disjoint.parent);
    root := disjoint.Find(x);
  }

  /** The final loop over the relationships in identifier order. */
  method RenderRows(disjoint: DisjointSet, ids: seq<Id>, base: map<Id, Option<string>>, decisions: map<Id, Decision>,
                    groupsOf: map<Id, seq<Id>>, ghost c: map<Id, Id>)
    returns (assignments: seq<AssignmentRow>)
    requires Forest(disjoint.parent) && Roots(disjoint.parent) == c
    requires forall k :: 0 <= k < |ids| ==> ids[k] in base && ids[k] in c && c[ids[k]] in decisions
    modifies disjoint
    ensures |assignments| == |ids|
    ensures forall k :: 0 <= k < |ids| ==>
              assignments[k] == RowFor(ids[k], base[ids[k]], decisions[c[ids[k]]], LeadingGroup(groupsOf, ids[k]))
  {
    assignments := [];
    for i := 0 to |ids|
      invariant |assignments| == i
      invariant Forest(disjoint.parent) && Roots(disjoint.parent) == c
      invariant forall k :: 0 <= k < i ==>
                  assignments[k] == RowFor(ids[k], base[ids[k]], decisions[c[ids[k]]], LeadingGroup(groupsOf, ids[k]))
    {
      var root := FindLabel(disjoint, ids[i], c);
      assignments := assignments + [RowFor(ids[i], base[ids[i]], decisions[root], LeadingGroup(groupsOf, ids[i]))];
    }
  }

  lemma {:induction false} IndexIsUnique(byId: Index, other: Index, relationships: set<SplitRelationship>)
    requires IndexesExactly(byId, relationships) && IndexesExactly(other, relationships)
    ensures byId == other
  {
    assert forall x :: x in byId ==> byId[x] in relationships && x in other && other[x] == byId[x];
    assert forall x :: x in other ==> other[x] in relationships && x in byId;
  }

  lemma {:induction false} IdsEnumerateIndex(ordered: seq<SplitRelationship>, ids: seq<Id>, byId: Index)
    requires SortedOn(ordered, RelationshipKey()) && UniqueIds(ordered) && IndexesExactly(byId, Elements(ordered))
    requires |ids| == |ordered| && forall k :: 0 <= k < |ids| ==> ids[k] == ordered[k].relationshipId
    ensures ids == Enumeration(byId.Keys)
    ensures forall x :: x in ids <==> x in byId
  {
    SortedDistinctKeysAscend(ordered, RelationshipKey(), ids);
    forall x ensures x in ids <==> x in byId {
      if x in ids {
        var k :| 0 <= k < |ids| && ids[k] == x;
        assert ordered[k] in Elements(ordered);
      }
      if x in byId {
        var k :| 0 <= k < |ordered| && ordered[k] == byId[x];
        assert ids[k] == x;
      }
    }
    assert Elements(ids) == byId.Keys;
    AscendingIsUnique(ids, Enumeration(byId.Keys));
  }

  /** Build the forest and join every enforced group: equal roots if and only if connected. */
  method JoinedForest(ids: seq<Id>, order: seq<Id>, members: map<Id, seq<Id>>, rows: seq<GroupRow>)
    returns (disjoint: DisjointSet)
    requires forall g :: g in order <==> g in members
    requires forall g :: g in members ==> members[g] != []
    requires forall g, x :: HasRow(rows, g, x) <==> Holds(members, g, x)
    requires forall k :: 0 <= k < |rows| ==> rows[k].relationshipId in ids
    ensures fresh(disjoint) && Forest(disjoint.parent)
    ensures LeastLabels(Roots(disjoint.parent))
    ensures LabelsConnect(Roots(disjoint.parent), ids, Elements(rows))
  {
    disjoint := new DisjointSet(ids);
    ghost var start := Roots(disjoint.parent);
    forall x, y ensures IsJustified(start, Elements(rows), x, y) {
      ConnectedReflexive(Elements(rows), x);
    }
    forall g, x, y ensures SharersAreLinked(members, Elements(rows), g, x, y) {
      if Holds(members, g, x) && Holds(members, g, y) { LinkedThroughGroup(rows, g, x, y); }
    }
    forall g, x ensures IsKnownMember(start, members, g, x) {
      if Holds(members, g, x) { HasRowIsMembership(rows, g, x); }
    }
    UnionGroups(disjoint, order, members, Elements(rows));
    RootsAreLeastLabels(disjoint.parent);
    ghost var c := Roots(disjoint.parent);
    forall p, q | p in Elements(rows) && q in Elements(rows) && p.groupId == q.groupId
      ensures p.relationshipId in c && q.relationshipId in c && c[p.relationshipId] == c[q.relationshipId]
    {
      RowsShareLabel(c, rows, order, members, p, q);
    }
    forall x, y | x in ids && y in ids ensures c[x] == c[y] <==> Connected(Elements(rows), x, y) {
      LabelsAreConnectivity(c, Elements(rows), x, y);
    }
  }

  lemma {:induction false} RowsShareLabel(c: map<Id, Id>, rows: seq<GroupRow>, order: seq<Id>,
                                          members: map<Id, seq<Id>>, p: GroupRow, q: GroupRow)
    requires forall g :: g in order <==> g in members
    requires forall g, x :: HasRow(rows, g, x) <==> Holds(members, g, x)
    requires AllListed(order, members) && AllJoined(c, order, members, |order|)
    requires p in Elements(rows) && q in Elements(rows) && p.groupId == q.groupId
    ensures p.relationshipId in c && q.relationshipId in c && c[p.relationshipId] == c[q.relationshipId]
  {
    var g := p.groupId;
    HasRowIsMembership(rows, g, p.relationshipId);
    HasRowIsMembership(rows, g, q.relationshipId);
    assert Holds(members, g, p.relationshipId) && Holds(members, g, q.relationshipId);
    var k :| 0 <= k < |order| && order[k] == g;
    var i :| 0 <= i < |members[g]| && members[g][i] == p.relationshipId;
    var j :| 0 <= j < |members[g]| && members[g][j] == q.relationshipId;
    assert Joined(c, members[g], |members[g]|) && IsJoined(c, members[g], i) && IsJoined(c, members[g], j);
  }

  lemma {:induction false} ComponentsAreConnected(c: map<Id, Id>, rows: set<GroupRow>, ids: seq<Id>,
                                                  components: map<Id, seq<Id>>, byId: Index)
    requires Elements(ids) == byId.Keys && LabelsConnect(c, ids, rows)
    requires forall r, x :: Holds(components, r, x) <==> x in ids && x in c && c[x] == r
    ensures forall r :: r in components ==> Elements(components[r]) <= byId.Keys
    ensures forall x :: x in ids ==>
              c[x] in components && Elements(components[c[x]]) == Component(byId.Keys, rows, x)
  {
    forall r, x | r in components && x in Elements(components[r]) ensures x in byId.Keys {
      assert Holds(components, r, x);
    }
    forall x | x in ids
      ensures c[x] in components && Elements(components[c[x]]) == Component(byId.Keys, rows, x)
    {
      assert Holds(components, c[x], x);
      forall y ensures y in Elements(components[c[x]]) <==> y in Component(byId.Keys, rows, x) {
        assert Holds(components, c[x], y) <==> y in ids && c[y] == c[x];
        assert y in ids <==> y in byId.Keys;
      }
    }
  }
}
