/** The caller of the generator, `_generate_negatives` in src/echoes/benchmarks/pipeline.py: it selects
    templates, builds the complete positive graph and lays out the passages. */
module NegativeTemplates {
  import opened Wrappers
  import opened Ordering
  import opened BenchmarkRows
  import opened Dictionaries
  import opened Negatives
  import opened NegativeSlots
  import opened NegativeGeneration

  /** A verse passage of one stream, before and after it is placed. */
  datatype Target = Target(passageId: Id, tokenCount: int)

  datatype Stream = Stream(corpus: string, profile: string, book: string, targets: seq<Target>)

  datatype Located = Located(passageId: Id, corpus: string, book: string, tokenCount: int, ordinal: nat)

  /** A relationship with the decoded target lists of its endpoints, in endpoint order. */
  datatype MappedRelationship = MappedRelationship(relationshipId: Id, targetLists: seq<seq<Id>>)

  datatype BuildError =
    | MissingEndpoints(relationshipId: Id)
    | UnknownTarget(relationshipId: Id)
    | UnknownGenre(book: string)
    | InvalidPassage(passageId: Id)
    | Generator(error: GenerationError)

  /** `enumerate(targets, start=1)` within one stream. */
  function LocateTargets(stream: Stream, from: nat): seq<Located>
    decreases |stream.targets| - from
  {
    if from >= |stream.targets| then []
    else
      var t := stream.targets[from];
      [Located(t.passageId, stream.corpus, stream.book, t.tokenCount, from + 1)] + LocateTargets(stream, from + 1)
  }

  /** The edition-complete passages, stream by stream. */
  function EditionTargets(streams: seq<Stream>): seq<Located> {
    if streams == [] then []
    else
      (if streams[0].profile == "edition_complete" then LocateTargets(streams[0], 0) else [])
      + EditionTargets(streams[1..])
  }

  /** The located passages are exactly the edition-complete targets, each numbered from one within its stream. */
  lemma {:induction false} LocatedExactlyWhen(streams: seq<Stream>, l: Located)
    ensures l in EditionTargets(streams) <==>
              exists m, i :: 0 <= m < |streams| && IsPlacedIn(streams[m], i, l)
  {
    if streams != [] {
      LocatedExactlyWhen(streams[1..], l);
      if streams[0].profile == "edition_complete" { LocatedInStream(streams[0], 0, l); }
      if m, i :| 0 <= m < |streams| && IsPlacedIn(streams[m], i, l) {
        if m > 0 { assert streams[1..][m - 1] == streams[m]; }
      }
      if m, i :| 0 <= m < |streams[1..]| && IsPlacedIn(streams[1..][m], i, l) {
        assert IsPlacedIn(streams[m + 1], i, l);
      }
    }
  }

  predicate IsPlacedIn(stream: Stream, i: int, l: Located) {
    && stream.profile == "edition_complete" && 0 <= i < |stream.targets|
    && l == Located(stream.targets[i].passageId, stream.corpus, stream.book, stream.targets[i].tokenCount, i + 1)
  }

  lemma {:induction false} LocatedInStream(stream: Stream, from: nat, l: Located)
    requires from <= |stream.targets| && stream.profile == "edition_complete"
    ensures l in LocateTargets(stream, from) <==> exists i :: from <= i && IsPlacedIn(stream, i, l)
    decreases |stream.targets| - from
  {
    if from < |stream.targets| {
      LocatedInStream(stream, from + 1, l);
      assert LocateTargets(stream, from)[0] == l <==> IsPlacedIn(stream, from, l);
    }
  }

  /** `passage_books`: a later passage with the same identifier wins. */
  function PassageBooks(located: seq<Located>): map<Id, string> {
    if located == [] then map[]
    else
      var last := located[|located| - 1];
      PassageBooks(located[..|located| - 1])[last.passageId := last.book]
  }

  lemma {:induction false} BookOfUnique(located: seq<Located>, k: nat)
    requires k < |located|
    requires forall i, j :: 0 <= i < j < |located| ==> located[i].passageId != located[j].passageId
    ensures located[k].passageId in PassageBooks(located)
            && PassageBooks(located)[located[k].passageId] == located[k].book
  {
    if k < |located| - 1 {
      BookOfUnique(located[..|located| - 1], k);
    }
  }

  lemma {:induction false} BookIsLocated(located: seq<Located>, id: Id)
    requires id in PassageBooks(located)
    ensures exists k :: 0 <= k < |located| && located[k].passageId == id
  {
    var last := |located| - 1;
    if located[last].passageId != id {
      BookIsLocated(located[..last], id);
      var k :| 0 <= k < last && located[..last][k].passageId == id;
      assert located[k].passageId == id;
    }
  }

  /** `iter_mapped_positive_pairs`: the canonical pairs of two mapped spans. */
  function MappedPairs(first: seq<Id>, second: seq<Id>): set<Pair> {
    set x, y | x in first && y in second && x != y :: CanonicalPair(x, y)
  }

  ghost predicate IsMappedPair(relationships: seq<MappedRelationship>, pair: Pair) {
    exists k :: 0 <= k < |relationships| && |relationships[k].targetLists| == 2
      && pair in MappedPairs(relationships[k].targetLists[0], relationships[k].targetLists[1])
  }

  /** What one selected template satisfies. */
  ghost predicate IsTemplate(item: KnownPositive, books: map<Id, string>, graph: set<Pair>,
                             partitionOf: string -> Partition) {
    && item.passageA != item.passageB && item.passageA in books && item.passageB in books
    && partitionOf(books[item.passageA]) == partitionOf(books[item.passageB])
    && CanonicalPair(item.passageA, item.passageB) in graph
  }

  predicate AllKnown(lists: seq<seq<Id>>, books: map<Id, string>) {
    forall i, j :: 0 <= i < |lists| && 0 <= j < |lists[i]| ==> lists[i][j] in books
  }

  /** The relationships that become templates: placed by the held-out-book split, each endpoint mapped to one passage,
      the two passages different, and both books drawn for the relationship's own partition. */
  predicate IsSelected(r: MappedRelationship, books: map<Id, string>, heldOut: map<Id, Partition>,
                       partitionOf: string -> Partition)
  {
    && |r.targetLists| == 2 && |r.targetLists[0]| == 1 && |r.targetLists[1]| == 1
    && r.targetLists[0][0] != r.targetLists[1][0] && r.relationshipId in heldOut
    && IsDrawnFor(r.targetLists[0][0], books, partitionOf, heldOut[r.relationshipId])
    && IsDrawnFor(r.targetLists[1][0], books, partitionOf, heldOut[r.relationshipId])
  }

  predicate IsDrawnFor(id: Id, books: map<Id, string>, partitionOf: string -> Partition, p: Partition) {
    id in books && partitionOf(books[id]) == p
  }

  predicate IsUsable(r: MappedRelationship, books: map<Id, string>) {
    |r.targetLists| == 2 && AllKnown(r.targetLists, books)
  }

  /** The error of a relationship that cannot be used: not two endpoints, or else an unknown passage. */
  function Unusable(r: MappedRelationship): BuildError {
    if |r.targetLists| != 2 then MissingEndpoints(r.relationshipId) else UnknownTarget(r.relationshipId)
  }

  /** The templates of usable relationships, in relationship order. */
  function Selected(relationships: seq<MappedRelationship>, books: map<Id, string>, heldOut: map<Id, Partition>,
                    partitionOf: string -> Partition): seq<KnownPositive>
  {
    if relationships == [] then []
    else
      var last := relationships[|relationships| - 1];
      Selected(relationships[..|relationships| - 1], books, heldOut, partitionOf)
      + if IsSelected(last, books, heldOut, partitionOf) then
          [KnownPositive(last.relationshipId, last.targetLists[0][0], last.targetLists[1][0])]
        else []
  }

  /** A template stands for exactly the relationships that are selected. */
  lemma {:induction false} SelectedExactly(relationships: seq<MappedRelationship>, books: map<Id, string>,
                                           heldOut: map<Id, Partition>, partitionOf: string -> Partition,
                                           item: KnownPositive)
    ensures item in Selected(relationships, books, heldOut, partitionOf) <==>
              exists r :: r in relationships && IsSelected(r, books, heldOut, partitionOf)
                && item == KnownPositive(r.relationshipId, r.targetLists[0][0], r.targetLists[1][0])
  {
    if relationships != [] {
      var front, last := relationships[..|relationships| - 1], relationships[|relationships| - 1];
      assert relationships == front + [last];
      SelectedExactly(front, books, heldOut, partitionOf, item);
    }
  }

  /** The relationship loop: every mapped pair enters the graph, whether or not a template is selected. */
  method SelectTemplates(relationships: seq<MappedRelationship>, books: map<Id, string>, heldOut: map<Id, Partition>,
                         partitionOf: string -> Partition)
    returns (r: Result<(seq<KnownPositive>, set<Pair>), BuildError>)
    ensures r.Success? <==> forall x | x in relationships :: IsUsable(x, books)
    ensures r.Success? ==>
              && r.value.0 == Selected(relationships, books, heldOut, partitionOf)
              && (forall pair :: pair in r.value.1 <==> IsMappedPair(relationships, pair))
              && (forall k :: 0 <= k < |r.value.0| ==> IsTemplate(r.value.0[k], books, r.value.1, partitionOf))
    ensures r.Failure? ==> exists x :: x in relationships && r.error == Unusable(x) && !IsUsable(x, books)
  {
    var positives: seq<KnownPositive>, graph: set<Pair> := [], {};
    for i := 0 to |relationships|
      invariant forall x | x in relationships[..i] :: IsUsable(x, books)
      invariant positives == Selected(relationships[..i], books, heldOut, partitionOf)
      invariant forall pair :: pair in graph <==> IsMappedPair(relationships[..i], pair)
      invariant forall k :: 0 <= k < |positives| ==> IsTemplate(positives[k], books, graph, partitionOf)
    {
      var relationship := relationships[i];
      assert relationship in relationships;
      if |relationship.targetLists| != 2 {
        return Failure(MissingEndpoints(relationship.relationshipId));
      }
      if !AllKnown(relationship.targetLists, books) {
        return Failure(UnknownTarget(relationship.relationshipId));
      }
      var first, second := relationship.targetLists[0], relationship.targetLists[1];
      MappedPairSnoc(relationships, i);
      assert relationships[..i + 1] == relationships[..i] + [relationship]
        && relationships[..i + 1][..i] == relationships[..i];
      graph := graph + MappedPairs(first, second);
      if relationship.relationshipId in heldOut && |first| == 1 && |second| == 1 && first[0] != second[0] {
        assert relationship.targetLists[0][0] in books && relationship.targetLists[1][0] in books;
        var firstPartition, secondPartition := partitionOf(books[first[0]]), partitionOf(books[second[0]]);
        if firstPartition == secondPartition == heldOut[relationship.relationshipId] {
          assert first[0] in first && second[0] in second;
          positives := positives + [KnownPositive(relationship.relationshipId, first[0], second[0])];
        }
      }
    }
    assert relationships[..|relationships|] == relationships;
    r := Success((positives, graph));
  }

  lemma {:induction false} MappedPairSnoc(relationships: seq<MappedRelationship>, i: nat)
    requires i < |relationships| && |relationships[i].targetLists| == 2
    ensures forall pair :: IsMappedPair(relationships[..i + 1], pair) <==>
              IsMappedPair(relationships[..i], pair)
              || pair in MappedPairs(relationships[i].targetLists[0], relationships[i].targetLists[1])
  {
    var before, after := relationships[..i], relationships[..i + 1];
    forall pair
      ensures IsMappedPair(after, pair) <==>
                IsMappedPair(before, pair)
                || pair in MappedPairs(relationships[i].targetLists[0], relationships[i].targetLists[1])
    {
      assert after[i] == relationships[i];
      if IsMappedPair(before, pair) {
        var k :| 0 <= k < |before| && |before[k].targetLists| == 2
          && pair in MappedPairs(before[k].targetLists[0], before[k].targetLists[1]);
        assert after[k] == before[k];
      }
      if IsMappedPair(after, pair) {
        var k :| 0 <= k < |after| && |after[k].targetLists| == 2
          && pair in MappedPairs(after[k].targetLists[0], after[k].targetLists[1]);
        if k < i { assert before[k] == after[k]; }
      }
    }
  }

  function PassageFor(t: Located, genres: map<string, string>, partitionOf: string -> Partition): NegativePassage
    requires t.book in genres
  {
    NegativePassage(t.passageId, t.corpus, t.book, genres[t.book], t.tokenCount, t.ordinal, partitionOf(t.book), {})
  }

  /** The passage loop. */
  method LayOutPassages(located: seq<Located>, genres: map<string, string>, partitionOf: string -> Partition)
    returns (r: Result<seq<NegativePassage>, BuildError>)
    ensures r.Success? ==>
              && |r.value| == |located|
              && forall k :: 0 <= k < |located| ==>
                   && located[k].book in genres && located[k].tokenCount >= 1
                   && r.value[k] == PassageFor(located[k], genres, partitionOf)
    ensures r.Success? <==> forall k :: 0 <= k < |located| ==> located[k].book in genres && located[k].tokenCount >= 1
    ensures r.Failure? ==> r.error.UnknownGenre? || r.error.InvalidPassage?
  {
    var passages := [];
    for i := 0 to |located|
      invariant |passages| == i
      invariant forall k :: 0 <= k < i ==>
                  && located[k].book in genres && located[k].tokenCount >= 1
                  && passages[k] == PassageFor(located[k], genres, partitionOf)
    {
      var t := located[i];
      if t.book !in genres {
        return Failure(UnknownGenre(t.book));
      }
      if t.tokenCount < 1 {
        return Failure(InvalidPassage(t.passageId));
      }
      passages := passages + [PassageFor(t, genres, partitionOf)];
    }
    r := Success(passages);
  }

  /** The passages of a layout that succeeds. */
  function PassagesOf(located: seq<Located>, genres: map<string, string>, partitionOf: string -> Partition)
      : seq<NegativePassage>
    requires forall t | t in located :: t.book in genres
  {
    seq(|located|, k requires 0 <= k < |located| =>
          assert located[k] in located; PassageFor(located[k], genres, partitionOf))
  }

  ghost predicate LaidOut(passages: seq<NegativePassage>, located: seq<Located>, genres: map<string, string>,
                          partitionOf: string -> Partition) {
    && |passages| == |located|
    && forall k :: 0 <= k < |located| ==>
         && located[k].book in genres && located[k].tokenCount >= 1
         && passages[k] == PassageFor(located[k], genres, partitionOf)
  }

  /** With unique passage identifiers every guard of the generator passes on what the pipeline hands it. */
  lemma {:induction false} SelectionPassesGuards(located: seq<Located>, passages: seq<NegativePassage>,
                                                 genres: map<string, string>, positives: seq<KnownPositive>,
                                                 graph: set<Pair>, partitionOf: string -> Partition)
    requires LaidOut(passages, located, genres, partitionOf) && UniquePassages(passages)
    requires forall k :: 0 <= k < |positives| ==> IsTemplate(positives[k], PassageBooks(located), graph, partitionOf)
    ensures GuardsPass(passages, positives, Graph(positives, Some(graph)))
  {
    var books := PassageBooks(located);
    forall k | 0 <= k < |positives| ensures TemplateIsPlaced(positives[k], IndexOn(passages, PassageKey())) {
      assert IsTemplate(positives[k], books, graph, partitionOf);
      PlacedByBook(located, passages, genres, partitionOf, positives[k].passageA);
      PlacedByBook(located, passages, genres, partitionOf, positives[k].passageB);
    }
    forall pair | pair in TemplatePairs(positives) ensures pair in graph {
      var item :| item in positives && TemplatePair(item) == pair;
      var k :| 0 <= k < |positives| && positives[k] == item;
      assert IsTemplate(positives[k], books, graph, partitionOf);
    }
  }

  lemma {:induction false} PlacedByBook(located: seq<Located>, passages: seq<NegativePassage>,
                                        genres: map<string, string>, partitionOf: string -> Partition, id: Id)
    requires LaidOut(passages, located, genres, partitionOf) && UniquePassages(passages) && id in PassageBooks(located)
    ensures var byId := IndexOn(passages, PassageKey());
            id in byId && byId[id].partition == partitionOf(PassageBooks(located)[id])
  {
    BookIsLocated(located, id);
    var k :| 0 <= k < |located| && located[k].passageId == id;
    forall i, j | 0 <= i < j < |located| ensures located[i].passageId != located[j].passageId {
      assert PassageKey()(passages[i]) != PassageKey()(passages[j]);
    }
    BookOfUnique(located, k);
    IndexHoldsEntry(passages, PassageKey(), k);
  }

  datatype NegativeConfig = NegativeConfig(definition: Definition, enabled: bool)

  /** The errors a build can end with: the generator's template guards are not among them. */
  predicate IsBuildFailure(error: BuildError) {
    match error
    case Generator(e) => e.DuplicatePassageIds? || e.Shortfall?
    case _ => true
  }

  /** The rows are those of the enabled definitions, one whole generation after the other. */
  ghost predicate AreGenerations(rows: seq<NegativeRow>, configured: seq<NegativeConfig>,
                                 passages: seq<NegativePassage>, positives: seq<KnownPositive>, graph: set<Pair>,
                                 digests: Digests)
    requires forall c | c in configured :: c.definition.ratio >= 0.0
    decreases |configured|
  {
    if configured == [] then rows == []
    else
      var last := configured[|configured| - 1];
      exists front, own :: rows == front + own
        && AreGenerations(front, configured[..|configured| - 1], passages, positives, graph, digests)
        && if last.enabled && last.definition.ratio != 0.0 then
          IsGeneration(own, passages, positives, last.definition, graph, digests)
           else own == []
  }

  lemma {:induction false} NextGeneration(rows: seq<NegativeRow>, own: seq<NegativeRow>,
                                          configured: seq<NegativeConfig>, i: nat, passages: seq<NegativePassage>,
                                          positives: seq<KnownPositive>, graph: set<Pair>, digests: Digests)
    requires i < |configured| && forall c | c in configured :: c.definition.ratio >= 0.0
    requires AreGenerations(rows, configured[..i], passages, positives, graph, digests)
    requires if configured[i].enabled && configured[i].definition.ratio != 0.0 then
               IsGeneration(own, passages, positives, configured[i].definition, graph, digests)
             else own == []
    ensures AreGenerations(rows + own, configured[..i + 1], passages, positives, graph, digests)
  {
    assert configured[..i + 1][..i] == configured[..i];
  }

  /** No generation holds a pair of the graph. */
  lemma {:induction false} GenerationsAvoidGraph(rows: seq<NegativeRow>, configured: seq<NegativeConfig>,
                                                 passages: seq<NegativePassage>, positives: seq<KnownPositive>,
                                                 graph: set<Pair>, digests: Digests)
    requires forall c | c in configured :: c.definition.ratio >= 0.0
    requires AreGenerations(rows, configured, passages, positives, graph, digests)
    ensures forall k | 0 <= k < |rows| :: RowPair(rows[k]) !in graph
    decreases |configured|
  {
    if configured != [] {
      var last := configured[|configured| - 1];
      var front, own :| rows == front + own
        && AreGenerations(front, configured[..|configured| - 1], passages, positives, graph, digests)
        && if last.enabled && last.definition.ratio != 0.0 then
          IsGeneration(own, passages, positives, last.definition, graph, digests)
           else own == [];
      GenerationsAvoidGraph(front, configured[..|configured| - 1], passages, positives, graph, digests);
      forall k | 0 <= k < |own|
        ensures RowPair(own[k]) !in graph
      {
        assert IsPresumedNegative(own[k], passages, positives, last.definition, graph, digests);
      }
    }
  }

  /** What a completed build has returned: the selected templates, the whole graph of mapped pairs and the laid-out
      passages, and over them one generation per enabled definition. */
  ghost predicate IsBuild(rows: seq<NegativeRow>, located: seq<Located>, relationships: seq<MappedRelationship>,
                          heldOut: map<Id, Partition>, partitionOf: string -> Partition, genres: map<string, string>,
                          configured: seq<NegativeConfig>, digests: Digests)
    requires forall c | c in configured :: c.definition.ratio >= 0.0
  {
    var books := PassageBooks(located);
    && (forall x | x in relationships :: IsUsable(x, books))
    && (forall t | t in located :: t.book in genres)
    && exists graph: set<Pair> ::
         && (forall pair :: pair in graph <==> IsMappedPair(relationships, pair))
         && AreGenerations(rows, configured, PassagesOf(located, genres, partitionOf),
                           Selected(relationships, books, heldOut, partitionOf), graph, digests)
  }

  /** The rows are one whole generation per enabled definition over the selected templates; no mapped pair of any
      relationship is ever among them; and the generator's unknown-passage, cross-partition and missing-from-graph
      guards never fire. */
  method GenerateNegatives(streams: seq<Stream>, relationships: seq<MappedRelationship>, heldOut: map<Id, Partition>,
                           partitionOf: string -> Partition, genres: map<string, string>,
                           configured: seq<NegativeConfig>, digests: Digests)
    returns (r: Result<seq<NegativeRow>, BuildError>)
    requires forall c | c in configured :: c.definition.ratio >= 0.0 && c.definition.maxCandidateAttempts >= 1
    ensures r.Failure? ==> IsBuildFailure(r.error)
    ensures r.Success? ==>
              IsBuild(r.value, EditionTargets(streams), relationships, heldOut, partitionOf, genres, configured,
                      digests)
    ensures r.Success? ==>
              forall k :: 0 <= k < |r.value| ==> !IsMappedPair(relationships, RowPair(r.value[k]))
  {
    var located := EditionTargets(streams);
    var selected := SelectTemplates(relationships, PassageBooks(located), heldOut, partitionOf);
    if selected.Failure? {
      return Failure(selected.error);
    }
    var (positives, graph) := selected.value;
    var laidOut := LayOutPassages(located, genres, partitionOf);
    if laidOut.Failure? {
      return Failure(laidOut.error);
    }
    var passages := laidOut.value;
    if UniquePassages(passages) {
      SelectionPassesGuards(located, passages, genres, positives, graph, partitionOf);
    }
    r := GenerateAll(passages, positives, graph, configured, digests);
    if r.Success? {
      GenerationsAvoidGraph(r.value, configured, passages, positives, graph, digests);
      assert passages == PassagesOf(located, genres, partitionOf);
    }
  }

  /** The loop over the configured definitions. */
  method GenerateAll(passages: seq<NegativePassage>, positives: seq<KnownPositive>, graph: set<Pair>,
                     configured: seq<NegativeConfig>, digests: Digests)
    returns (r: Result<seq<NegativeRow>, BuildError>)
    requires forall c | c in configured :: c.definition.ratio >= 0.0 && c.definition.maxCandidateAttempts >= 1
    requires forall k :: 0 <= k < |passages| ==> passages[k].tokenCount >= 1
    requires UniquePassages(passages) ==> GuardsPass(passages, positives, Graph(positives, Some(graph)))
    ensures r.Failure? ==> IsBuildFailure(r.error)
    ensures r.Success? ==> AreGenerations(r.value, configured, passages, positives, graph, digests)
  {
    var rows := [];
    for i := 0 to |configured|
      invariant AreGenerations(rows, configured[..i], passages, positives, graph, digests)
    {
      var definition := configured[i].definition;
      var own: seq<NegativeRow> := [];
      if configured[i].enabled && definition.ratio != 0.0 {
        var generated := GeneratePresumedNegatives(passages, positives, definition, Some(graph), digests);
        if generated.Failure? {
          return Failure(Generator(generated.error));
        }
        own := generated.value;
      }
      NextGeneration(rows, own, configured, i, passages, positives, graph, digests);
      rows := rows + own;
    }
    assert configured[..|configured|] == configured;
    r := Success(rows);
  }
}
