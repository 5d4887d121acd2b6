/** The slot loops and guards of `generate_presumed_negatives` in src/echoes/benchmarks/negatives.py. */
module NegativeGeneration {
  import opened Wrappers
  import opened Ordering
  import opened BenchmarkRows
  import opened Dictionaries
  import opened Negatives
  import opened NegativeSlots

  ghost predicate DistinctPairs(rows: seq<NegativeRow>) {
    forall i, j :: 0 <= i < j < |rows| ==> RowPair(rows[i]) != RowPair(rows[j])
  }

  lemma {:induction false} NewPairStaysDistinct(rows: seq<NegativeRow>, row: NegativeRow)
    requires DistinctPairs(rows) && RowPair(row) !in PairsOf(rows)
    ensures DistinctPairs(rows + [row]) && PairsOf(rows + [row]) == PairsOf(rows) + {RowPair(row)}
  {
    assert forall i :: 0 <= i < |rows| ==> rows[i] in rows && RowPair(rows[i]) in PairsOf(rows);
    assert forall r :: r in rows + [row] <==> r in rows || r == row;
  }

  /** The templates name passages the indexes know. */
  ghost predicate KnownTemplates(templates: seq<Template>, byId: map<Id, NegativePassage>) {
    forall k :: 0 <= k < |templates| ==> KnownPassage(templates[k].0, byId) && KnownPassage(templates[k].1, byId)
  }

  ghost predicate KnownPassage(p: NegativePassage, byId: map<Id, NegativePassage>) {
    p.passageId in byId && byId[p.passageId] == p
  }

  lemma {:induction false} AcceptedRow(byId: map<Id, NegativePassage>, templates: seq<Template>, definition: Definition,
                                       graph: set<Pair>, generated: set<Pair>, digests: Digests, k: nat, flip: bool,
                                       candidate: NegativePassage)
    requires KnownTemplates(templates, byId) && k < |templates| && KnownPassage(candidate, byId)
    requires var (anchor, other) := Turned(templates[k], flip);
             PoolAdmits(definition, anchor, other, candidate)
             && CandidateIsValid(anchor, candidate, definition, graph, generated)
    ensures var pair := CanonicalPair(Turned(templates[k], flip).0.passageId, candidate.passageId);
            && pair.0 in byId && pair.1 in byId && pair !in generated
            && RowPair(RowFor(byId[pair.0], byId[pair.1], digests)) == pair
            && RowIsAccepted(RowFor(byId[pair.0], byId[pair.1], digests), byId, templates, definition, graph, digests)
  {
    var (anchor, other) := Turned(templates[k], flip);
    assert KnownPassage(templates[k].0, byId) && KnownPassage(templates[k].1, byId);
    CanonicalPairFacts(anchor.passageId, candidate.passageId);
    var pair := CanonicalPair(anchor.passageId, candidate.passageId);
    assert ComesFrom(pair, templates[k], flip, byId[candidate.passageId], definition, graph);
  }

  /** Some slot had every probed passage refused, judged against the final set of generated pairs. */
  ghost predicate SomeSlotRefused(indexes: PassageIndexes, templates: seq<Template>, rounds: nat,
                                  definition: Definition, digests: Digests, graph: set<Pair>, generated: set<Pair>)
    reads indexes
  {
    exists roundNumber: nat, k: nat :: roundNumber < rounds && k < |templates|
      && SlotRefused(indexes, templates[k], k, roundNumber, definition, digests, graph, generated)
  }

  lemma {:induction false} SomeSlotRefusalPersists(indexes: PassageIndexes, templates: seq<Template>, rounds: nat,
                                                   definition: Definition, digests: Digests, graph: set<Pair>,
                                                   generated: set<Pair>, more: set<Pair>)
    requires generated <= more
    requires SomeSlotRefused(indexes, templates, rounds, definition, digests, graph, generated)
    ensures SomeSlotRefused(indexes, templates, rounds, definition, digests, graph, more)
  {
    var roundNumber: nat, k: nat :| roundNumber < rounds && k < |templates|
      && SlotRefused(indexes, templates[k], k, roundNumber, definition, digests, graph, generated);
    SlotRefusalPersists(indexes, templates[k], k, roundNumber, definition, digests, graph, generated, more);
  }

  /** What the rows satisfy at every point of the loops. */
  ghost predicate Sound(rows: seq<NegativeRow>, byId: map<Id, NegativePassage>, templates: seq<Template>,
                        definition: Definition, graph: set<Pair>, digests: Digests) {
    && DistinctPairs(rows)
    && forall k :: 0 <= k < |rows| ==> RowIsAccepted(rows[k], byId, templates, definition, graph, digests)
  }

  /** What the candidate loop finds is the first valid passage of the slot's probe. */
  lemma {:induction false} FoundIsFirst(indexes: PassageIndexes, passages: seq<NegativePassage>, template: Template,
                                        k: nat, roundNumber: nat, definition: Definition, digests: Digests,
                                        graph: set<Pair>, generated: set<Pair>, found: Option<NegativePassage>, at: nat)
    requires indexes.Describes(passages) && forall i :: 0 <= i < |passages| ==> passages[i].tokenCount >= 1
    requires found.Some? ==>
               && IsFirstValid(indexes.byId, SlotProbe(indexes, template, k, roundNumber, definition, digests),
                               Oriented(template, k, roundNumber).0, definition, graph, generated, at, found.value)
               && found.value.passageId in indexes.byId && indexes.byId[found.value.passageId] == found.value
    requires found.None? ==> SlotRefused(indexes, template, k, roundNumber, definition, digests, graph, generated)
    ensures FirstOf(ProbeOf(indexes.byId, template, k, roundNumber, definition, digests), indexes.byId,
                    Oriented(template, k, roundNumber).0, definition, graph, generated)
            == match found case None => None case Some(p) => Some(p.passageId)
  {
    var (anchor, other) := Oriented(template, k, roundNumber);
    PoolIsOrdered(indexes, passages, anchor, other, definition);
    var probe := SlotProbe(indexes, template, k, roundNumber, definition, digests);
    assert probe == ProbeOf(indexes.byId, template, k, roundNumber, definition, digests);
    if found.Some? {
      FirstOfIsFirst(probe, indexes.byId, anchor, definition, graph, generated, at);
    } else {
      FirstOfNone(probe, indexes.byId, anchor, definition, graph, generated);
    }
  }

  ghost predicate IsReady(indexes: PassageIndexes, c: Setting, passages: seq<NegativePassage>)
    reads indexes
  {
    && indexes.Describes(passages) && indexes.byId == c.byId
    && (forall i :: 0 <= i < |passages| ==> passages[i].tokenCount >= 1)
    && KnownTemplates(c.templates, c.byId)
  }

  lemma {:induction false} FoundGivesSlot(indexes: PassageIndexes, passages: seq<NegativePassage>, c: Setting, k: nat,
                                          roundNumber: nat, rows: seq<NegativeRow>, found: Option<NegativePassage>,
                                          at: nat)
    requires IsReady(indexes, c, passages) && k < |c.templates| && |rows| < c.requested
    requires found.Some? ==>
               && IsFirstValid(indexes.byId,
                               SlotProbe(indexes, c.templates[k], k, roundNumber, c.definition, c.digests),
                               Oriented(c.templates[k], k, roundNumber).0, c.definition, c.graph, PairsOf(rows), at,
                               found.value)
               && found.value.passageId in indexes.byId && indexes.byId[found.value.passageId] == found.value
    requires found.None? ==>
               SlotRefused(indexes, c.templates[k], k, roundNumber, c.definition, c.digests, c.graph, PairsOf(rows))
    ensures AfterSlot(c, rows, roundNumber, k) ==
            match found
            case None => rows
            case Some(p) => rows + PairRow(c, Oriented(c.templates[k], k, roundNumber).0.passageId, p.passageId)
  {
    FoundIsFirst(indexes, passages, c.templates[k], k, roundNumber, c.definition, c.digests, c.graph, PairsOf(rows),
      found, at);
  }

  /** The row of a valid passage keeps the rows sound. */
  lemma {:induction false} AcceptedKeepsSound(c: Setting, rows: seq<NegativeRow>, k: nat, roundNumber: nat,
                                              candidate: NegativePassage)
    requires KnownTemplates(c.templates, c.byId) && k < |c.templates| && KnownPassage(candidate, c.byId)
    requires Sound(rows, c.byId, c.templates, c.definition, c.graph, c.digests)
    requires var (anchor, other) := Oriented(c.templates[k], k, roundNumber);
             PoolAdmits(c.definition, anchor, other, candidate)
             && CandidateIsValid(anchor, candidate, c.definition, c.graph, PairsOf(rows))
    ensures var after := rows + PairRow(c, Oriented(c.templates[k], k, roundNumber).0.passageId, candidate.passageId);
            && |after| == |rows| + 1 && PairsOf(rows) <= PairsOf(after)
            && Sound(after, c.byId, c.templates, c.definition, c.graph, c.digests)
  {
    var anchor := Oriented(c.templates[k], k, roundNumber).0;
    AcceptedRow(c.byId, c.templates, c.definition, c.graph, PairsOf(rows), c.digests, k, (k + roundNumber) % 2 != 0,
      candidate);
    var (a, b) := CanonicalPair(anchor.passageId, candidate.passageId);
    NewPairStaysDistinct(rows, RowFor(c.byId[a], c.byId[b], c.digests));
  }

  /** One slot: append the accepted row, or leave the rows alone when every probed passage is refused. */
  method TrySlot(indexes: PassageIndexes, c: Setting, k: nat, roundNumber: nat, rows: seq<NegativeRow>,
                 ghost passages: seq<NegativePassage>)
    returns (after: seq<NegativeRow>)
    requires IsReady(indexes, c, passages) && k < |c.templates| && |rows| < c.requested
    requires Sound(rows, c.byId, c.templates, c.definition, c.graph, c.digests)
    ensures Sound(after, c.byId, c.templates, c.definition, c.graph, c.digests)
    ensures after == AfterSlot(c, rows, roundNumber, k)
    ensures PairsOf(rows) <= PairsOf(after)
    ensures |after| == |rows| + 1
            || (after == rows
                && SlotRefused(indexes, c.templates[k], k, roundNumber, c.definition, c.digests, c.graph,
                  PairsOf(rows)))
  {
    ghost var at;
    var found: Option<NegativePassage>;
    found, at := FindCandidate(indexes, c.templates[k], k, roundNumber, c.definition, c.digests, c.graph, PairsOf(rows),
      passages);
    FoundGivesSlot(indexes, passages, c, k, roundNumber, rows, found, at);
    if found.None? {
      return rows;
    }
    var anchor := Oriented(c.templates[k], k, roundNumber).0;
    AcceptedKeepsSound(c, rows, k, roundNumber, found.value);
    after := rows + PairRow(c, anchor.passageId, found.value.passageId);
  }

  /** What the loops keep: sound rows, no more than requested, and while fewer were added than slots went by, a slot
      that was refused. */
  ghost predicate Keeps(indexes: PassageIndexes, c: Setting, rows: seq<NegativeRow>, slots: int, rounds: nat)
    reads indexes
  {
    && Sound(rows, indexes.byId, c.templates, c.definition, c.graph, c.digests) && |rows| <= c.requested
    && (|rows| == c.requested || |rows| == slots
        || SomeSlotRefused(indexes, c.templates, rounds, c.definition, c.digests, c.graph, PairsOf(rows)))
  }

  lemma {:induction false} SlotKeeps(indexes: PassageIndexes, c: Setting, rows: seq<NegativeRow>,
                                     after: seq<NegativeRow>, slots: int, roundNumber: nat, k: nat, rounds: nat)
    requires Keeps(indexes, c, rows, slots, rounds) && roundNumber < rounds && k < |c.templates|
    requires |rows| < c.requested && PairsOf(rows) <= PairsOf(after)
    requires Sound(after, indexes.byId, c.templates, c.definition, c.graph, c.digests)
    requires |after| == |rows| + 1
             || (after == rows
                 && SlotRefused(indexes, c.templates[k], k, roundNumber, c.definition, c.digests, c.graph,
                   PairsOf(rows)))
    ensures Keeps(indexes, c, after, slots + 1, rounds)
  {
    if SomeSlotRefused(indexes, c.templates, rounds, c.definition, c.digests, c.graph, PairsOf(rows)) {
      SomeSlotRefusalPersists(indexes, c.templates, rounds, c.definition, c.digests, c.graph, PairsOf(rows),
        PairsOf(after));
    }
  }

  /** The inner loop, over the templates of one round. */
  method FillRound(indexes: PassageIndexes, c: Setting, rows: seq<NegativeRow>, roundNumber: nat, ghost rounds: nat,
                   ghost slots: int, ghost passages: seq<NegativePassage>)
    returns (filled: seq<NegativeRow>)
    requires IsReady(indexes, c, passages) && roundNumber < rounds
    requires Keeps(indexes, c, rows, slots, rounds) && rows == AfterSlots(c, roundNumber, 0)
    ensures Keeps(indexes, c, filled, slots + |c.templates|, rounds)
    ensures filled == AfterSlots(c, roundNumber, |c.templates|)
  {
    filled := rows;
    for k := 0 to |c.templates|
      invariant Keeps(indexes, c, filled, slots + k, rounds)
      invariant filled == AfterSlots(c, roundNumber, k)
    {
      if |filled| >= c.requested {
        RoundStaysMet(c, roundNumber, k);
        break;
      }
      var after := TrySlot(indexes, c, k, roundNumber, filled, passages);
      SlotKeeps(indexes, c, filled, after, slots + k, roundNumber, k, rounds);
      SlotAdvances(c, roundNumber, k);
      filled := after;
    }
  }

  /** The outer loop, over the rounds. */
  method FillSlots(indexes: PassageIndexes, c: Setting, rounds: nat, ghost passages: seq<NegativePassage>)
    returns (rows: seq<NegativeRow>)
    requires IsReady(indexes, c, passages) && c.requested <= rounds * |c.templates|
    ensures Sound(rows, indexes.byId, c.templates, c.definition, c.graph, c.digests) && |rows| <= c.requested
    ensures rows == AfterSlots(c, rounds, 0)
    ensures |rows| < c.requested ==>
              SomeSlotRefused(indexes, c.templates, rounds, c.definition, c.digests, c.graph, PairsOf(rows))
  {
    rows := [];
    for roundNumber := 0 to rounds
      invariant Keeps(indexes, c, rows, roundNumber * |c.templates|, rounds)
      invariant rows == AfterSlots(c, roundNumber, 0)
    {
      rows := FillRound(indexes, c, rows, roundNumber, rounds, roundNumber * |c.templates|, passages);
      NextRound(roundNumber, |c.templates|);
      SlotAdvances(c, roundNumber, 0);
      if |rows| >= c.requested {
        RoundsStayMet(c, roundNumber + 1, rounds);
        break;
      }
    }
  }

  lemma {:induction false} NextRound(roundNumber: nat, count: nat)
    ensures (roundNumber + 1) * count == roundNumber * count + count
  {
  }

  // ----- The whole generator -----

  lemma {:induction false} CeilBounds(x: real)
    ensures x <= Ceil(x) as real < x + 1.0
  {
  }

  lemma {:induction false} RoundedUp(x: real, n: int)
    requires x <= n as real
    ensures Ceil(x) <= n
  {
  }

  /** The rounds always supply enough slots. */
  lemma {:induction false} RoundsSupplyEnoughSlots(count: nat, ratio: real)
    requires ratio >= 0.0
    ensures Ceil(count as real * ratio) >= 0
    ensures var rounds := Ceil(ratio) + 1; rounds >= 1 && Ceil(count as real * ratio) <= rounds * count
  {
    CeilBounds(ratio);
    var n := Ceil(ratio);
    assert count as real * ratio >= 0.0;
    CeilBounds(count as real * ratio);
    assert count as real * ratio <= count as real * n as real;
    assert count as real * n as real == (count * n) as real;
    RoundedUp(count as real * ratio, count * n);
    assert count * n <= (n + 1) * count by {
      assert (n + 1) * count == count * n + count;
    }
  }

  function RequestedCount(count: nat, definition: Definition): nat
    requires definition.ratio >= 0.0
  {
    RoundsSupplyEnoughSlots(count, definition.ratio);
    Ceil(count as real * definition.ratio)
  }

  function TemplatePair(item: KnownPositive): Pair {
    CanonicalPair(item.passageA, item.passageB)
  }

  function TemplatePairs(positives: seq<KnownPositive>): set<Pair> {
    set item | item in positives :: TemplatePair(item)
  }

  /** The graph the generator checks: the supplied one, else the templates' own pairs. */
  function Graph(positives: seq<KnownPositive>, supplied: Option<set<Pair>>): set<Pair> {
    match supplied
    case None => TemplatePairs(positives)
    case Some(pairs) => pairs
  }

  ghost predicate TemplateIsPlaced(item: KnownPositive, byId: map<Id, NegativePassage>) {
    item.passageA in byId && item.passageB in byId && byId[item.passageA].partition == byId[item.passageB].partition
  }

  /** What the generator demands of its inputs. */
  ghost predicate GuardsPass(passages: seq<NegativePassage>, positives: seq<KnownPositive>, graph: set<Pair>) {
    && UniquePassages(passages)
    && TemplatePairs(positives) <= graph
    && forall k :: 0 <= k < |positives| ==> TemplateIsPlaced(positives[k], IndexOn(passages, PassageKey()))
  }

  function PositiveKeyR(): KnownPositive -> Id { (x: KnownPositive) => x.relationshipId }

  function PositiveKeyA(): KnownPositive -> Id { (x: KnownPositive) => x.passageA }

  function PositiveKeyB(): KnownPositive -> Id { (x: KnownPositive) => x.passageB }

  function ContrastiveKey(): NegativeRow -> Id { (x: NegativeRow) => x.contrastiveId }

  /** `sorted(..., key=lambda item: (item.relationship_id, item.passage_a_id, item.passage_b_id))` */
  function OrderPositives(positives: seq<KnownPositive>): (ordered: seq<KnownPositive>)
    ensures multiset(ordered) == multiset(positives)
  {
    SortOn(SortOn(SortOn(positives, PositiveKeyB()), PositiveKeyA()), PositiveKeyR())
  }

  /** By relationship, then first passage, then second. */
  function PositiveOrder(): (KnownPositive, KnownPositive) -> bool {
    (x: KnownPositive, y: KnownPositive) => ComesThen(x, y, PositiveKeyR(), PositiveTie())
  }

  function PositiveTie(): (KnownPositive, KnownPositive) -> bool {
    (x: KnownPositive, y: KnownPositive) => ComesThen(x, y, PositiveKeyA(), LastTie())
  }

  function LastTie(): (KnownPositive, KnownPositive) -> bool {
    (x: KnownPositive, y: KnownPositive) => AtMost(x.passageB, y.passageB)
  }

  lemma {:induction false} OrderedByAllKeys(positives: seq<KnownPositive>)
    ensures Ordered(OrderPositives(positives), PositiveOrder())
  {
    var byB := SortOn(positives, PositiveKeyB());
    assert forall i, j :: 0 <= i < j < |byB| ==> AtMost(PositiveKeyB()(byB[i]), PositiveKeyB()(byB[j]));
    SortOnIsStable(byB, PositiveKeyA(), LastTie());
    var byA := SortOn(byB, PositiveKeyA());
    assert forall i, j :: 0 <= i < j < |byA| ==> ComesThen(byA[i], byA[j], PositiveKeyA(), LastTie());
    SortOnIsStable(byA, PositiveKeyR(), PositiveTie());
  }

  lemma {:induction false} PositiveOrderHasNoTies(x: KnownPositive, y: KnownPositive)
    requires PositiveOrder()(x, y) && PositiveOrder()(y, x)
    ensures x == y
  {
    if Less(x.relationshipId, y.relationshipId) { LessIsAsymmetric(x.relationshipId, y.relationshipId); }
    if Less(y.relationshipId, x.relationshipId) { LessIsAsymmetric(y.relationshipId, x.relationshipId); }
    if Less(x.passageA, y.passageA) { LessIsAsymmetric(x.passageA, y.passageA); }
    if Less(y.passageA, x.passageA) { LessIsAsymmetric(y.passageA, x.passageA); }
    AtMostIsAntisymmetric(x.passageB, y.passageB);
  }

  /** Permuted positives are processed in one order. */
  lemma {:induction false} OrderIsDetermined(a: seq<KnownPositive>, b: seq<KnownPositive>)
    requires multiset(a) == multiset(b)
    ensures OrderPositives(a) == OrderPositives(b)
  {
    OrderedByAllKeys(a);
    OrderedByAllKeys(b);
    forall x, y | PositiveOrder()(x, y) && PositiveOrder()(y, x) ensures x == y {
      PositiveOrderHasNoTies(x, y);
    }
    OrderedIsUnique(OrderPositives(a), OrderPositives(b), PositiveOrder());
  }

  /** The error a misplaced template raises: an unknown passage, or else two partitions. */
  function Misplacement(item: KnownPositive, byId: map<Id, NegativePassage>): GenerationError {
    if item.passageA !in byId || item.passageB !in byId then UnknownPassage(item.relationshipId)
    else CrossesPartitions(item.relationshipId)
  }

  ghost predicate IsFirstMisplaced(positives: seq<KnownPositive>, byId: map<Id, NegativePassage>, n: int) {
    && 0 <= n < |positives| && !TemplateIsPlaced(positives[n], byId)
    && forall k :: 0 <= k < n ==> TemplateIsPlaced(positives[k], byId)
  }

  /** The guard loop over the sorted positives. */
  method CollectTemplates(positives: seq<KnownPositive>, byId: map<Id, NegativePassage>)
    returns (r: Result<seq<Template>, GenerationError>)
    requires forall id :: id in byId ==> byId[id].passageId == id
    ensures r.Success? <==> forall k :: 0 <= k < |positives| ==> TemplateIsPlaced(positives[k], byId)
    ensures r.Success? ==>
              && |r.value| == |positives| && KnownTemplates(r.value, byId)
              && forall k :: 0 <= k < |positives| ==>
                   && TemplateIsPlaced(positives[k], byId)
                   && r.value[k] == (byId[positives[k].passageA], byId[positives[k].passageB])
    ensures r.Failure? ==>
              exists n :: IsFirstMisplaced(positives, byId, n) && r.error == Misplacement(positives[n], byId)
  {
    var templates := [];
    for i := 0 to |positives|
      invariant |templates| == i && KnownTemplates(templates, byId)
      invariant forall k :: 0 <= k < i ==>
                  && TemplateIsPlaced(positives[k], byId)
                  && templates[k] == (byId[positives[k].passageA], byId[positives[k].passageB])
    {
      var item := positives[i];
      if item.passageA !in byId || item.passageB !in byId {
        assert IsFirstMisplaced(positives, byId, i);
        return Failure(UnknownPassage(item.relationshipId));
      }
      var first, second := byId[item.passageA], byId[item.passageB];
      if first.partition != second.partition {
        assert IsFirstMisplaced(positives, byId, i);
        return Failure(CrossesPartitions(item.relationshipId));
      }
      templates := templates + [(first, second)];
    }
    r := Success(templates);
  }

  /** What a generated row promises about the passages and the templates. */
  ghost predicate IsPresumedNegative(row: NegativeRow, passages: seq<NegativePassage>, positives: seq<KnownPositive>,
                                     definition: Definition, graph: set<Pair>, digests: Digests) {
    var byId := IndexOn(passages, PassageKey());
    && Less(row.passageA, row.passageB) && row.passageA in byId && row.passageB in byId
    && row == RowFor(byId[row.passageA], byId[row.passageB], digests)
    && RowPair(row) !in graph
    && byId[row.passageA].partition == byId[row.passageB].partition == row.partition
    && !Overlapping(byId[row.passageA], byId[row.passageB])
    && exists k, flip :: 0 <= k < |positives| && MeetsStrategy(row, positives[k], flip, byId, definition)
  }

  /** One side of the template anchors the pair and the strategy admits the other passage. */
  ghost predicate MeetsStrategy(row: NegativeRow, item: KnownPositive, flip: bool, byId: map<Id, NegativePassage>,
                                definition: Definition) {
    && item.passageA in byId && item.passageB in byId && row.passageA in byId && row.passageB in byId
    && var (anchor, other) := Turned((byId[item.passageA], byId[item.passageB]), flip);
       || (row.passageA == anchor.passageId && PoolAdmits(definition, anchor, other, byId[row.passageB]))
       || (row.passageB == anchor.passageId && PoolAdmits(definition, anchor, other, byId[row.passageA]))
  }

  lemma {:induction false} AcceptedIsPresumedNegative(row: NegativeRow, passages: seq<NegativePassage>,
                                                      positives: seq<KnownPositive>, ordered: seq<KnownPositive>,
                                                      templates: seq<Template>, definition: Definition,
                                                      graph: set<Pair>, digests: Digests)
    requires UniquePassages(passages) && multiset(ordered) == multiset(positives)
    requires |templates| == |ordered|
    requires forall k :: 0 <= k < |ordered| ==>
               && TemplateIsPlaced(ordered[k], IndexOn(passages, PassageKey()))
               && templates[k] == (IndexOn(passages, PassageKey())[ordered[k].passageA],
                                   IndexOn(passages, PassageKey())[ordered[k].passageB])
    requires RowIsAccepted(row, IndexOn(passages, PassageKey()), templates, definition, graph, digests)
    ensures IsPresumedNegative(row, passages, positives, definition, graph, digests)
  {
    var byId := IndexOn(passages, PassageKey());
    var k, flip, candidate :| 0 <= k < |templates| && candidate in byId
      && ComesFrom((row.passageA, row.passageB), templates[k], flip, byId[candidate], definition, graph);
    var (anchor, other) := Turned(templates[k], flip);
    assert TemplateIsPlaced(ordered[k], byId);
    IndexEntryListed(passages, PassageKey(), candidate);
    IndexEntryListed(passages, PassageKey(), ordered[k].passageA);
    IndexEntryListed(passages, PassageKey(), ordered[k].passageB);
    CanonicalPairFacts(anchor.passageId, candidate);
    assert ordered[k] in multiset(ordered);
    var m :| 0 <= m < |positives| && positives[m] == ordered[k];
    assert MeetsStrategy(row, positives[m], flip, byId, definition);
  }

  lemma {:induction false} PermutedIndexAgrees(a: seq<NegativePassage>, b: seq<NegativePassage>)
    requires multiset(a) == multiset(b) && UniquePassages(a)
    ensures UniquePassages(b) && IndexOn(a, PassageKey()) == IndexOn(b, PassageKey())
  {
    UniqueOnPermutation(a, b, PassageKey());
    var m, n := IndexOn(a, PassageKey()), IndexOn(b, PassageKey());
    forall x | x in m ensures x in n && n[x] == m[x] { EntryCarriesOver(a, b, x); }
    forall x | x in n ensures x in m { EntryCarriesOver(b, a, x); }
  }

  lemma {:induction false} EntryCarriesOver(a: seq<NegativePassage>, b: seq<NegativePassage>, x: Id)
    requires multiset(a) == multiset(b) && UniquePassages(b) && x in IndexOn(a, PassageKey())
    ensures x in IndexOn(b, PassageKey()) && IndexOn(b, PassageKey())[x] == IndexOn(a, PassageKey())[x]
  {
    IndexEntryListed(a, PassageKey(), x);
    assert IndexOn(a, PassageKey())[x] in multiset(a);
    var k :| 0 <= k < |b| && b[k] == IndexOn(a, PassageKey())[x];
    IndexHoldsEntry(b, PassageKey(), k);
  }

  lemma {:induction false} PlacedRegardlessOfOrder(positives: seq<KnownPositive>, ordered: seq<KnownPositive>,
                                                   byId: map<Id, NegativePassage>)
    requires multiset(ordered) == multiset(positives)
    ensures TemplatePairs(ordered) == TemplatePairs(positives)
    ensures (forall k :: 0 <= k < |ordered| ==> TemplateIsPlaced(ordered[k], byId)) <==>
              (forall k :: 0 <= k < |positives| ==> TemplateIsPlaced(positives[k], byId))
  {
    PermutationKeepsElements(positives, ordered);
    assert forall x :: x in ordered <==> x in Elements(ordered);
    assert forall x :: x in positives <==> x in Elements(positives);
    assert forall k :: 0 <= k < |ordered| ==> ordered[k] in positives;
    assert forall k :: 0 <= k < |positives| ==> positives[k] in ordered;
  }

  /** The passages and templates in processing order. */
  ghost predicate Prepared(indexes: PassageIndexes, passages: seq<NegativePassage>, positives: seq<KnownPositive>,
                           ordered: seq<KnownPositive>, templates: seq<Template>)
    reads indexes
  {
    && UniquePassages(passages) && indexes.byId == IndexOn(passages, PassageKey())
    && multiset(ordered) == multiset(positives) && |templates| == |ordered|
    && KnownTemplates(templates, indexes.byId)
    && forall k :: 0 <= k < |ordered| ==>
         && TemplateIsPlaced(ordered[k], indexes.byId)
         && templates[k] == (indexes.byId[ordered[k].passageA], indexes.byId[ordered[k].passageB])
  }

  // ----- The whole generator as a function -----

  ghost function FirstMisplaced(ordered: seq<KnownPositive>, byId: ById): Option<KnownPositive> {
    if ordered == [] then None
    else if !TemplateIsPlaced(ordered[0], byId) then Some(ordered[0])
    else FirstMisplaced(ordered[1..], byId)
  }

  lemma {:induction false} FirstMisplacedIs(ordered: seq<KnownPositive>, byId: ById, n: nat)
    requires IsFirstMisplaced(ordered, byId, n)
    ensures FirstMisplaced(ordered, byId) == Some(ordered[n])
  {
    if n > 0 {
      assert forall k :: 0 <= k < n - 1 ==> ordered[1..][k] == ordered[k + 1];
      FirstMisplacedIs(ordered[1..], byId, n - 1);
    }
  }

  lemma {:induction false} NoneMisplaced(ordered: seq<KnownPositive>, byId: ById)
    ensures FirstMisplaced(ordered, byId).None? <==>
              forall k :: 0 <= k < |ordered| ==> TemplateIsPlaced(ordered[k], byId)
  {
    if ordered != [] {
      NoneMisplaced(ordered[1..], byId);
      assert forall k :: 1 <= k < |ordered| ==> ordered[1..][k - 1] == ordered[k];
    }
  }

  /** The templates of placed positives. */
  ghost function TemplatesOf(ordered: seq<KnownPositive>, byId: ById): seq<Template>
    requires forall k :: 0 <= k < |ordered| ==> TemplateIsPlaced(ordered[k], byId)
  {
    seq(|ordered|, k requires 0 <= k < |ordered| =>
          assert TemplateIsPlaced(ordered[k], byId); (byId[ordered[k].passageA], byId[ordered[k].passageB]))
  }

  function RoundsOf(definition: Definition): nat {
    var rounds := Ceil(definition.ratio) + 1;
    if rounds < 1 then 1 else rounds
  }

  /** There is one round more than the ratio, rounded up, and as many rows are requested as the ratio of the templates,
      rounded up. */
  lemma {:induction false} CountsRoundUp(count: nat, definition: Definition)
    requires definition.ratio >= 0.0
    ensures definition.ratio <= (RoundsOf(definition) - 1) as real < definition.ratio + 1.0
    ensures var exact := count as real * definition.ratio;
            exact <= RequestedCount(count, definition) as real < exact + 1.0
  {
    CeilBounds(definition.ratio);
    CeilBounds(count as real * definition.ratio);
  }

  /** The outcome of filling the slots of these templates. */
  ghost function Filled(c: Setting): Result<seq<NegativeRow>, GenerationError> {
    var rows := AfterSlots(c, RoundsOf(c.definition), 0);
    if |rows| == c.requested then Success(SortOn(rows, ContrastiveKey())) else Failure(Shortfall(c.requested, |rows|))
  }

  /** `generate_presumed_negatives` as a function of the passages' index, the ordered positives and the graph. */
  ghost function Expected(passages: seq<NegativePassage>, positives: seq<KnownPositive>, definition: Definition,
                          graph: set<Pair>, digests: Digests): Result<seq<NegativeRow>, GenerationError>
    requires definition.ratio >= 0.0
  {
    var byId, ordered := IndexOn(passages, PassageKey()), OrderPositives(positives);
    if !UniquePassages(passages) then Failure(DuplicatePassageIds)
    else if !(TemplatePairs(positives) <= graph) then Failure(GraphMissesTemplate)
    else
      NoneMisplaced(ordered, byId);
      match FirstMisplaced(ordered, byId)
      case Some(item) => Failure(Misplacement(item, byId))
      case None =>
        Filled(Setting(byId, TemplatesOf(ordered, byId), RequestedCount(|ordered|, definition), definition, digests,
                       graph))
  }

  /** The outcome does not depend on the order in which passages and positives are given. */
  lemma {:induction false} InputOrderDoesNotMatter(passages: seq<NegativePassage>, shuffled: seq<NegativePassage>,
                                                   positives: seq<KnownPositive>, reordered: seq<KnownPositive>,
                                                   definition: Definition, supplied: Option<set<Pair>>,
                                                   digests: Digests)
    requires definition.ratio >= 0.0
    requires multiset(passages) == multiset(shuffled) && multiset(positives) == multiset(reordered)
    ensures Expected(passages, positives, definition, Graph(positives, supplied), digests)
            == Expected(shuffled, reordered, definition, Graph(reordered, supplied), digests)
  {
    OrderIsDetermined(positives, reordered);
    SameTemplatePairs(positives, reordered);
    if UniquePassages(passages) { PermutedIndexAgrees(passages, shuffled); }
    if UniquePassages(shuffled) { PermutedIndexAgrees(shuffled, passages); }
  }

  lemma {:induction false} SameTemplatePairs(positives: seq<KnownPositive>, reordered: seq<KnownPositive>)
    requires multiset(positives) == multiset(reordered)
    ensures TemplatePairs(positives) == TemplatePairs(reordered)
  {
    assert forall item :: item in positives <==> item in multiset(positives);
    assert forall item :: item in reordered <==> item in multiset(reordered);
  }

  lemma {:induction false} NothingRequested(c: Setting)
    requires c.requested == 0
    ensures Filled(c) == Success([])
  {
    RoundsStayMet(c, 0, RoundsOf(c.definition));
  }

  /** The rows an admitted call must return. */
  ghost predicate IsGeneration(rows: seq<NegativeRow>, passages: seq<NegativePassage>, positives: seq<KnownPositive>,
                               definition: Definition, graph: set<Pair>, digests: Digests)
    requires definition.ratio >= 0.0
  {
    && |rows| == RequestedCount(|positives|, definition)
    && DistinctPairs(rows)
    && (forall k :: 0 <= k < |rows| ==>
          IsPresumedNegative(rows[k], passages, positives, definition, graph, digests))
    && SortedOn(rows, ContrastiveKey())
  }

  lemma {:induction false} SoundRowsAreGeneration(rows: seq<NegativeRow>, sorted: seq<NegativeRow>,
                                                  indexes: PassageIndexes, passages: seq<NegativePassage>,
                                                  positives: seq<KnownPositive>, ordered: seq<KnownPositive>,
                                                  templates: seq<Template>, definition: Definition, graph: set<Pair>,
                                                  digests: Digests)
    requires definition.ratio >= 0.0 && Prepared(indexes, passages, positives, ordered, templates)
    requires Sound(rows, indexes.byId, templates, definition, graph, digests)
    requires |rows| == RequestedCount(|positives|, definition)
    requires multiset(sorted) == multiset(rows) && SortedOn(sorted, ContrastiveKey())
    ensures IsGeneration(sorted, passages, positives, definition, graph, digests)
  {
    assert |sorted| == |multiset(sorted)| == |rows|;
    forall k | 0 <= k < |sorted|
      ensures IsPresumedNegative(sorted[k], passages, positives, definition, graph, digests)
    {
      assert sorted[k] in multiset(sorted);
      var m :| 0 <= m < |rows| && rows[m] == sorted[k];
      AcceptedIsPresumedNegative(rows[m], passages, positives, ordered, templates, definition, graph, digests);
    }
    DistinctPairsPermute(rows, sorted);
  }

  lemma {:induction false} DistinctPairsPermute(a: seq<NegativeRow>, b: seq<NegativeRow>)
    requires multiset(a) == multiset(b) && DistinctPairs(a)
    ensures DistinctPairs(b)
  {
    if i, j :| 0 <= i < j < |b| && RowPair(b[i]) == RowPair(b[j]) {
      assert b[i] in multiset(b) && b[j] in multiset(b);
      var k :| 0 <= k < |a| && a[k] == b[i];
      var l :| 0 <= l < |a| && a[l] == b[j];
      if k == l {
        CountOfRepeat(b, i, j);
        var p, q := RepeatOfCount(a, b[i]);
      }
    }
  }

  /** What each error of the generator says about its inputs. */
  ghost predicate ErrorExplained(error: GenerationError, passages: seq<NegativePassage>, positives: seq<KnownPositive>,
                                 definition: Definition, graph: set<Pair>, digests: Digests)
    requires definition.ratio >= 0.0
  {
    var byId := IndexOn(passages, PassageKey());
    match error
    case DuplicatePassageIds => !UniquePassages(passages)
    case GraphMissesTemplate => UniquePassages(passages) && !(TemplatePairs(positives) <= graph)
    case UnknownPassage(_) => UniquePassages(passages) && TemplatePairs(positives) <= graph
      && IsMisplaced(error, positives, byId)
    case CrossesPartitions(_) => UniquePassages(passages) && TemplatePairs(positives) <= graph
      && IsMisplaced(error, positives, byId)
    case Shortfall(requested, produced) =>
      && GuardsPass(passages, positives, graph)
      && produced < requested == RequestedCount(|positives|, definition)
      && exists rows :: |rows| == produced && IsStuck(rows, passages, positives, definition, graph, digests)
  }

  ghost predicate IsMisplaced(error: GenerationError, positives: seq<KnownPositive>, byId: map<Id, NegativePassage>) {
    exists item :: item in positives && !TemplateIsPlaced(item, byId) && error == Misplacement(item, byId)
  }

  /** Rows that are presumed negatives all, and beside which some round found a whole probe refused. */
  ghost predicate IsStuck(rows: seq<NegativeRow>, passages: seq<NegativePassage>, positives: seq<KnownPositive>,
                          definition: Definition, graph: set<Pair>, digests: Digests) {
    var byId := IndexOn(passages, PassageKey());
    && DistinctPairs(rows)
    && (forall k :: 0 <= k < |rows| ==> IsPresumedNegative(rows[k], passages, positives, definition, graph, digests))
    && exists item, flip, roundNumber: nat, pool ::
      IsExhaustedItem(item, flip, roundNumber, pool, rows, byId, positives, definition, graph, digests)
  }

  ghost predicate IsExhaustedItem(item: KnownPositive, flip: bool, roundNumber: nat, pool: seq<Id>,
                                  rows: seq<NegativeRow>, byId: map<Id, NegativePassage>, positives: seq<KnownPositive>,
                                  definition: Definition, graph: set<Pair>, digests: Digests) {
    && item in positives && TemplateIsPlaced(item, byId)
    && Exhausted(byId, (byId[item.passageA], byId[item.passageB]), flip, roundNumber, pool, definition, digests, graph,
      PairsOf(rows))
  }

  lemma {:induction false} RefusedSlotIsStuck(rows: seq<NegativeRow>, indexes: PassageIndexes,
                                              orderedPassages: seq<NegativePassage>, passages: seq<NegativePassage>,
                                              positives: seq<KnownPositive>, ordered: seq<KnownPositive>,
                                              templates: seq<Template>, rounds: nat, definition: Definition,
                                              graph: set<Pair>, digests: Digests)
    requires indexes.Describes(orderedPassages)
    requires forall k :: 0 <= k < |orderedPassages| ==> orderedPassages[k].tokenCount >= 1
    requires Prepared(indexes, passages, positives, ordered, templates)
    requires Sound(rows, indexes.byId, templates, definition, graph, digests)
    requires SomeSlotRefused(indexes, templates, rounds, definition, digests, graph, PairsOf(rows))
    ensures IsStuck(rows, passages, positives, definition, graph, digests)
  {
    forall k | 0 <= k < |rows| ensures IsPresumedNegative(rows[k], passages, positives, definition, graph, digests) {
      AcceptedIsPresumedNegative(rows[k], passages, positives, ordered, templates, definition, graph, digests);
    }
    var roundNumber: nat, k: nat :| roundNumber < rounds && k < |templates|
      && SlotRefused(indexes, templates[k], k, roundNumber, definition, digests, graph, PairsOf(rows));
    var flip, pool := RefusedSlotIsExhausted(indexes, orderedPassages, templates[k], k, roundNumber, definition,
      digests, graph, PairsOf(rows));
    assert ordered[k] in multiset(ordered);
    assert IsExhaustedItem(ordered[k], flip, roundNumber, pool, rows, indexes.byId, positives, definition, graph,
      digests);
  }

  lemma {:induction false} MisplacedIsListed(ordered: seq<KnownPositive>, positives: seq<KnownPositive>,
                                             byId: map<Id, NegativePassage>, n: nat)
    requires multiset(ordered) == multiset(positives) && IsFirstMisplaced(ordered, byId, n)
    ensures IsMisplaced(Misplacement(ordered[n], byId), positives, byId)
  {
    assert ordered[n] in multiset(ordered);
    assert ordered[n] in positives;
  }

  /** What a call comes to: generation proper exactly when the guards pass, a whole generation or an error with its
      explanation, and in every case the expected one. */
  ghost predicate IsOutcome(r: Result<seq<NegativeRow>, GenerationError>, passages: seq<NegativePassage>,
                            positives: seq<KnownPositive>, definition: Definition, graph: set<Pair>, digests: Digests)
    requires definition.ratio >= 0.0
  {
    && (GuardsPass(passages, positives, graph) <==> r.Success? || r.error.Shortfall?)
    && (r.Success? ==> IsGeneration(r.value, passages, positives, definition, graph, digests))
    && (r.Failure? ==> ErrorExplained(r.error, passages, positives, definition, graph, digests))
    && r == Expected(passages, positives, definition, graph, digests)
  }

  lemma {:induction false} MisplacedOutcome(passages: seq<NegativePassage>, positives: seq<KnownPositive>,
                                            definition: Definition, graph: set<Pair>, digests: Digests, n: nat)
    requires definition.ratio >= 0.0 && UniquePassages(passages) && TemplatePairs(positives) <= graph
    requires IsFirstMisplaced(OrderPositives(positives), IndexOn(passages, PassageKey()), n)
    ensures var byId := IndexOn(passages, PassageKey());
            IsOutcome(Failure(Misplacement(OrderPositives(positives)[n], byId)), passages, positives, definition, graph,
                      digests)
  {
    var byId, ordered := IndexOn(passages, PassageKey()), OrderPositives(positives);
    PlacedRegardlessOfOrder(positives, ordered, byId);
    MisplacedIsListed(ordered, positives, byId, n);
    FirstMisplacedIs(ordered, byId, n);
  }

  lemma {:induction false} FilledOutcome(r: Result<seq<NegativeRow>, GenerationError>, passages: seq<NegativePassage>,
                                         positives: seq<KnownPositive>, definition: Definition, graph: set<Pair>,
                                         digests: Digests, templates: seq<Template>)
    requires definition.ratio >= 0.0 && UniquePassages(passages) && TemplatePairs(positives) <= graph
    requires var byId, ordered := IndexOn(passages, PassageKey()), OrderPositives(positives);
             && (forall k :: 0 <= k < |ordered| ==> TemplateIsPlaced(ordered[k], byId))
             && templates == TemplatesOf(ordered, byId)
             && r == Filled(Setting(byId, templates, RequestedCount(|templates|, definition), definition, digests,
                                    graph))
    requires r.Success? ==> IsGeneration(r.value, passages, positives, definition, graph, digests)
    requires r.Failure? ==>
               && r.error.Shortfall? && r.error.produced < r.error.requested == RequestedCount(|positives|, definition)
               && exists rows ::
                    |rows| == r.error.produced && IsStuck(rows, passages, positives, definition, graph, digests)
    ensures IsOutcome(r, passages, positives, definition, graph, digests)
  {
    var byId, ordered := IndexOn(passages, PassageKey()), OrderPositives(positives);
    PlacedRegardlessOfOrder(positives, ordered, byId);
    NoneMisplaced(ordered, byId);
  }

  /** Either a governed guard refuses the inputs, or generation falls short, or the result is exactly the
      requested number of presumed negatives. */
  method GeneratePresumedNegatives(passages: seq<NegativePassage>, positives: seq<KnownPositive>,
                                   definition: Definition, supplied: Option<set<Pair>>, digests: Digests)
    returns (r: Result<seq<NegativeRow>, GenerationError>)
    requires definition.ratio >= 0.0 && definition.maxCandidateAttempts >= 1
    requires forall k :: 0 <= k < |passages| ==> passages[k].tokenCount >= 1
    ensures IsOutcome(r, passages, positives, definition, Graph(positives, supplied), digests)
  {
    var indexes, unique, orderedPassages := IndexPassages(passages);
    if !unique {
      return Failure(DuplicatePassageIds);
    }
    var ordered := OrderPositives(positives);
    SameTemplatePairs(positives, ordered);
    if !(TemplatePairs(ordered) <= Graph(positives, supplied)) {
      return Failure(GraphMissesTemplate);
    }
    r := GenerateOrdered(indexes, passages, orderedPassages, positives, ordered, definition, Graph(positives, supplied),
      digests);
  }

  lemma {:induction false} CollectedAreTemplates(positives: seq<KnownPositive>, ordered: seq<KnownPositive>, byId: ById,
                                                 templates: seq<Template>)
    requires multiset(ordered) == multiset(positives) && |templates| == |ordered|
    requires forall k :: 0 <= k < |ordered| ==>
               && TemplateIsPlaced(ordered[k], byId)
               && templates[k] == (byId[ordered[k].passageA], byId[ordered[k].passageB])
    ensures |templates| == |positives| && templates == TemplatesOf(ordered, byId)
  {
    assert |ordered| == |multiset(ordered)| == |multiset(positives)| == |positives|;
  }

  /** The placement guard, and then the slots. */
  method GenerateOrdered(indexes: PassageIndexes, ghost passages: seq<NegativePassage>,
                         ghost orderedPassages: seq<NegativePassage>, ghost positives: seq<KnownPositive>,
                         ordered: seq<KnownPositive>, definition: Definition, graph: set<Pair>, digests: Digests)
    returns (r: Result<seq<NegativeRow>, GenerationError>)
    requires definition.ratio >= 0.0 && UniquePassages(passages) && TemplatePairs(positives) <= graph
    requires indexes.Describes(orderedPassages) && indexes.byId == IndexOn(passages, PassageKey())
    requires forall k :: 0 <= k < |orderedPassages| ==> orderedPassages[k].tokenCount >= 1
    requires forall id :: id in indexes.byId ==> indexes.byId[id].passageId == id
    requires ordered == OrderPositives(positives)
    ensures IsOutcome(r, passages, positives, definition, graph, digests)
  {
    var collected := CollectTemplates(ordered, indexes.byId);
    if collected.Failure? {
      ghost var n :| IsFirstMisplaced(ordered, indexes.byId, n)
        && collected.error == Misplacement(ordered[n], indexes.byId);
      MisplacedOutcome(passages, positives, definition, graph, digests, n);
      return Failure(collected.error);
    }
    var templates := collected.value;
    CollectedAreTemplates(positives, ordered, indexes.byId, templates);
    r := FillRequested(indexes, passages, orderedPassages, positives, ordered, templates, definition, graph, digests);
    FilledOutcome(r, passages, positives, definition, graph, digests, templates);
  }

  /** Sorting and indexing the passages; equal sizes mean unique identifiers. */
  method IndexPassages(passages: seq<NegativePassage>)
    returns (indexes: PassageIndexes, unique: bool, orderedPassages: seq<NegativePassage>)
    requires forall k :: 0 <= k < |passages| ==> passages[k].tokenCount >= 1
    ensures unique <==> UniquePassages(passages)
    ensures forall k :: 0 <= k < |orderedPassages| ==> orderedPassages[k].tokenCount >= 1
    ensures unique ==> indexes.Describes(orderedPassages) && indexes.byId == IndexOn(passages, PassageKey())
    ensures unique ==> forall id :: id in indexes.byId ==> indexes.byId[id].passageId == id
  {
    orderedPassages := SortOn(passages, PassageKey());
    indexes := new PassageIndexes(orderedPassages);
    IndexDetectsDuplicates(orderedPassages, PassageKey());
    if UniquePassages(orderedPassages) { PermutedIndexAgrees(orderedPassages, passages); }
    if UniquePassages(passages) { PermutedIndexAgrees(passages, orderedPassages); }
    unique := |indexes.byId| == |orderedPassages|;
    forall k | 0 <= k < |orderedPassages| ensures orderedPassages[k].tokenCount >= 1 {
      assert orderedPassages[k] in multiset(passages);
    }
    forall id | id in indexes.byId ensures indexes.byId[id].passageId == id {
      IndexEntryListed(orderedPassages, PassageKey(), id);
    }
  }

  method FillRequested(indexes: PassageIndexes, ghost passages: seq<NegativePassage>,
                       ghost orderedPassages: seq<NegativePassage>, ghost positives: seq<KnownPositive>,
                       ghost ordered: seq<KnownPositive>, templates: seq<Template>, definition: Definition,
                       graph: set<Pair>, digests: Digests)
    returns (r: Result<seq<NegativeRow>, GenerationError>)
    requires definition.ratio >= 0.0 && |templates| == |positives|
    requires indexes.Describes(orderedPassages)
    requires forall k :: 0 <= k < |orderedPassages| ==> orderedPassages[k].tokenCount >= 1
    requires Prepared(indexes, passages, positives, ordered, templates)
    ensures r.Success? ==> IsGeneration(r.value, passages, positives, definition, graph, digests)
    ensures r.Failure? ==>
              && r.error.Shortfall? && r.error.produced < r.error.requested == RequestedCount(|positives|, definition)
              && exists rows ::
                   |rows| == r.error.produced && IsStuck(rows, passages, positives, definition, graph, digests)
    ensures r == Filled(Setting(indexes.byId, templates, RequestedCount(|templates|, definition), definition, digests,
                                graph))
  {
    var requested := RequestedCount(|templates|, definition);
    RoundsSupplyEnoughSlots(|templates|, definition.ratio);
    var c := Setting(indexes.byId, templates, requested, definition, digests, graph);
    if requested == 0 {
      NothingRequested(c);
      return Success([]);
    }
    var rounds := RoundsOf(definition);
    var rows := FillSlots(indexes, c, rounds, orderedPassages);
    if |rows| != requested {
      RefusedSlotIsStuck(rows, indexes, orderedPassages, passages, positives, ordered, templates, rounds, definition,
                         graph, digests);
      return Failure(Shortfall(requested, |rows|));
    }
    SoundRowsAreGeneration(rows, SortOn(rows, ContrastiveKey()), indexes, passages, positives, ordered, templates,
                           definition, graph, digests);
    r := Success(SortOn(rows, ContrastiveKey()));
  }
}
