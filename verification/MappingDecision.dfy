/** The status decision of src/echoes/benchmarks/mapping.py and what each status means about the verses
    that are present. */
module MappingDecision {
  import opened Wrappers
  import opened Ordering
  import opened References
  import opened Coordinates
  import opened Mapping

  datatype MappingStatus =
    | MappedProvisional
    | MappedPartial
    | UnresolvedReference
    | UnresolvedMissingTarget
    | ExcludedByProfile
    | Invalid

  /** A parsed endpoint: its coordinates and whether it was written as a range. */
  datatype Endpoint = Endpoint(book: string, start: Coordinate, end: Coordinate, isRange: bool)

  /** `_numeric_gaps` */
  predicate NumericGaps(s: seq<Target>) {
    exists k :: 0 <= k < |s| - 1 && GapBetween(s[k], s[k + 1])
  }

  predicate GapBetween(previous: Target, current: Target) {
    if previous.chapter == current.chapter then current.verse != previous.verse + 1
    else current.chapter != previous.chapter + 1 || current.verse != 1
  }

  predicate AnyReferenceGap(s: seq<Target>) {
    exists k :: 0 <= k < |s| && s[k].referenceGap
  }

  /** `_targets_cover_endpoint` */
  predicate TargetsCoverEndpoint(endpoint: Endpoint, targets: seq<Target>, edition: seq<Target>) {
    && targets != []
    && if !endpoint.isRange then |targets| == 1 && At(targets[0]) == endpoint.start
       else
         && edition != []
         && ReferencesOf(targets) == ReferencesOf(edition)
         && At(targets[0]) == endpoint.start && At(targets[|targets| - 1]) == endpoint.end
         && !AnyReferenceGap(edition) && !NumericGaps(edition)
  }

  /** The decision for a parsed endpoint, from the profile's targets and the edition's targets. */
  function Decide(endpoint: Endpoint, profile: Profile, targets: seq<Target>, edition: seq<Target>): MappingStatus {
    var gap := AnyReferenceGap(edition) || NumericGaps(edition);
    if targets == [] && profile == CriticalCore && edition != [] then ExcludedByProfile
    else if targets == [] then UnresolvedMissingTarget
    else if !TargetsCoverEndpoint(endpoint, targets, edition) || gap then MappedPartial
    else MappedProvisional
  }

  datatype ParsedEndpoint = Coordinates(endpoint: Endpoint) | Unparsed(invalid: bool)

  /** `_mapping_for_profile`: status and targets; `corpusOf` is the canon's book-to-corpus table. */
  method MappingForProfile(parsed: ParsedEndpoint, index: PassageReferenceIndex, profile: Profile,
                           corpusOf: map<string, Corpus>, ghost all: seq<Target>)
    returns (r: Result<(MappingStatus, seq<Target>), string>)
    requires index.Describes(all)
    ensures r.Failure? <==> parsed.Coordinates? && parsed.endpoint.book !in corpusOf
    ensures r.Success? && parsed.Unparsed? ==>
              r.value == (if parsed.invalid then Invalid else UnresolvedReference, [])
    ensures r.Success? && parsed.Coordinates? ==>
              r.value == DecidedBy(index, parsed.endpoint, profile, corpusOf[parsed.endpoint.book])
  {
    if parsed.Unparsed? {
      return Success((if parsed.invalid then Invalid else UnresolvedReference, []));
    }
    var endpoint := parsed.endpoint;
    if endpoint.book !in corpusOf {
      return Failure(endpoint.book);
    }
    var corpus := corpusOf[endpoint.book];
    var targets := index.Span((corpus, profile, endpoint.book), endpoint.start, endpoint.end, all);
    var edition := targets;
    if profile != EditionComplete {
      edition := index.Span((corpus, EditionComplete, endpoint.book), endpoint.start, endpoint.end, all);
    }
    r := Success((Decide(endpoint, profile, targets, edition), targets));
  }

  ghost function SpanOf(index: PassageReferenceIndex, endpoint: Endpoint, profile: Profile, corpus: Corpus): seq<Target>
    reads index
  {
    SpanFilter(index.Targets((corpus, profile, endpoint.book)), endpoint.start, endpoint.end)
  }

  ghost function DecidedBy(index: PassageReferenceIndex, endpoint: Endpoint, profile: Profile, corpus: Corpus)
    : (MappingStatus, seq<Target>)
    reads index
  {
    var targets := SpanOf(index, endpoint, profile, corpus);
    (Decide(endpoint, profile, targets, SpanOf(index, endpoint, EditionComplete, corpus)), targets)
  }

  // ----- Facts about spans -----

  lemma {:induction false} SpanFilterMembers(s: seq<Target>, start: Coordinate, end: Coordinate)
    requires StrictlySorted(s)
    ensures StrictlySorted(SpanFilter(s, start, end))
    ensures forall t :: t in SpanFilter(s, start, end) <==> t in s && Between(At(t), start, end)
  {
    if s != [] {
      SpanFilterMembers(s[1..], start, end);
      assert s == [s[0]] + s[1..];
      var rest := SpanFilter(s[1..], start, end);
      forall k | 0 <= k < |rest| ensures Before(At(s[0]), At(rest[k])) {
        assert rest[k] in rest;
        var m :| 0 <= m < |s[1..]| && s[1..][m] == rest[k];
        assert s[m + 1] == rest[k];
      }
    }
  }

  lemma {:induction false} CoordinateMembership(s: seq<Target>, c: Coordinate)
    ensures c in CoordinatesOf(s) <==> exists t :: t in s && At(t) == c
  {
    if c in CoordinatesOf(s) {
      var k :| 0 <= k < |s| && CoordinatesOf(s)[k] == c;
      assert s[k] in s && At(s[k]) == c;
    }
    if t :| t in s && At(t) == c {
      var k :| 0 <= k < |s| && s[k] == t;
      assert CoordinatesOf(s)[k] == c;
    }
  }

  /** The coordinates of an expansion that the stream carries, in order. */
  function Carried(expansion: seq<Coordinate>, present: set<Coordinate>): seq<Coordinate> {
    if expansion == [] then []
    else (if expansion[0] in present then [expansion[0]] else []) + Carried(expansion[1..], present)
  }

  lemma {:induction false} CarriedMembers(expansion: seq<Coordinate>, present: set<Coordinate>)
    requires Increasing(expansion)
    ensures Increasing(Carried(expansion, present))
    ensures forall c :: c in Carried(expansion, present) <==> c in expansion && c in present
  {
    if expansion != [] {
      CarriedMembers(expansion[1..], present);
      assert expansion == [expansion[0]] + expansion[1..];
      var rest := Carried(expansion[1..], present);
      forall k | 0 <= k < |rest| ensures Before(expansion[0], rest[k]) {
        assert rest[k] in rest;
        var m :| 0 <= m < |expansion[1..]| && expansion[1..][m] == rest[k];
        assert expansion[m + 1] == rest[k];
      }
    }
  }

  /** When the index's verses lie within the verse bounds, the span is exactly the subsequence of the
      expansion that exists in the index. */
  lemma {:induction false} SpanIsCarriedExpansion(s: seq<Target>, book: string, bounds: VerseBounds, start: Coordinate,
                                                  end: Coordinate, expansion: seq<Coordinate>)
    requires StrictlySorted(s) && forall t :: t in s ==> Exists(bounds, book, At(t))
    requires Increasing(expansion)
    requires forall c :: c in expansion <==> Between(c, start, end) && Exists(bounds, book, c)
    ensures CoordinatesOf(SpanFilter(s, start, end)) == Carried(expansion, set t | t in s :: At(t))
  {
    var span, present := SpanFilter(s, start, end), set t | t in s :: At(t);
    SpanFilterMembers(s, start, end);
    CarriedMembers(expansion, present);
    forall c ensures c in CoordinatesOf(span) <==> c in Carried(expansion, present) {
      CoordinateMembership(span, c);
    }
    IncreasingIsDetermined(CoordinatesOf(span), Carried(expansion, present));
  }

  // ----- What the statuses mean -----

  /** Every verse of one chapter from first to last, in order. */
  ghost predicate EveryVerse(s: seq<Target>, start: Coordinate, end: Coordinate) {
    start.0 == end.0 && CoordinatesOf(s) == Verses(start.0, start.1, end.1)
  }

  /** A gap-free run inside one chapter steps by one verse. */
  lemma {:induction false} GapFreeSteps(s: seq<Target>, k: nat)
    requires k < |s| && !NumericGaps(s) && forall i :: 0 <= i < |s| ==> s[i].chapter == s[0].chapter
    ensures s[k].verse == s[0].verse + k
  {
    if k > 0 {
      GapFreeSteps(s, k - 1);
      assert !GapBetween(s[k - 1], s[k]);
    }
  }

  lemma {:induction false} WithinOneChapter(s: seq<Target>, start: Coordinate, end: Coordinate)
    requires start.0 == end.0 && forall k :: 0 <= k < |s| ==> Between(At(s[k]), start, end)
    ensures forall k :: 0 <= k < |s| ==> s[k].chapter == start.0 && start.1 <= s[k].verse <= end.1
  {
  }

  lemma {:induction false} VersesAt(chapter: nat, first: nat, last: nat, k: nat)
    requires first <= last && k <= last - first
    ensures |Verses(chapter, first, last)| == last - first + 1
    ensures Verses(chapter, first, last)[k] == (chapter, first + k)
    decreases last - first
  {
    if first < last {
      VersesAt(chapter, first + 1, last, if k == 0 then 0 else k - 1);
    } else {
      assert Verses(chapter, first + 1, last) == [];
    }
  }

  lemma {:induction false} StrictVersesSpread(s: seq<Target>, k: nat, m: nat)
    requires StrictlySorted(s) && k <= m < |s| && forall i :: 0 <= i < |s| ==> s[i].chapter == s[0].chapter
    ensures s[m].verse >= s[k].verse + (m - k)
    decreases m - k
  {
    if k < m {
      StrictVersesSpread(s, k, m - 1);
      assert Before(At(s[m - 1]), At(s[m]));
    }
  }

  /** Strictly sorted verses of one chapter that start and end right and are as many as the verses between
      are all of them. */
  lemma {:induction false} FullCountIsEveryVerse(s: seq<Target>, start: Coordinate, end: Coordinate)
    requires StrictlySorted(s) && start.0 == end.0 && s != []
    requires forall k :: 0 <= k < |s| ==> s[k].chapter == start.0
    requires At(s[0]) == start && At(s[|s| - 1]) == end
    ensures EveryVerse(s, start, end) <==> |s| == end.1 - start.1 + 1
  {
    StrictVersesSpread(s, 0, |s| - 1);
    VersesAt(start.0, start.1, end.1, 0);
    if |s| == end.1 - start.1 + 1 {
      forall k | 0 <= k < |s| ensures CoordinatesOf(s)[k] == Verses(start.0, start.1, end.1)[k] {
        StrictVersesSpread(s, 0, k);
        StrictVersesSpread(s, k, |s| - 1);
        VersesAt(start.0, start.1, end.1, k);
      }
      assert CoordinatesOf(s) == Verses(start.0, start.1, end.1);
    }
  }

  /** The inputs of a decision as the index produces them. */
  ghost predicate SpanInputs(endpoint: Endpoint, targets: seq<Target>, edition: seq<Target>) {
    && StrictlySorted(targets) && StrictlySorted(edition)
    && (forall k :: 0 <= k < |targets| ==> Between(At(targets[k]), endpoint.start, endpoint.end))
    && (forall k :: 0 <= k < |edition| ==> Between(At(edition[k]), endpoint.start, endpoint.end))
  }

  /** For the edition itself, a provisional same-chapter range maps to every verse from start to end. */
  lemma {:induction false} ProvisionalEditionIsEveryVerse(endpoint: Endpoint, edition: seq<Target>)
    requires SpanInputs(endpoint, edition, edition) && endpoint.isRange && endpoint.start.0 == endpoint.end.0
    requires Decide(endpoint, EditionComplete, edition, edition) == MappedProvisional
    ensures EveryVerse(edition, endpoint.start, endpoint.end)
  {
    WithinOneChapter(edition, endpoint.start, endpoint.end);
    GapFreeSteps(edition, |edition| - 1);
    FullCountIsEveryVerse(edition, endpoint.start, endpoint.end);
  }

  /** For any profile a provisional same-chapter range maps to every verse exactly when the edition carries
      as many verses as the range spans.  The decision compares reference labels only, so this is not
      automatic: see ProvisionalMayMissAVerse. */
  lemma {:induction false} ProvisionalIsEveryVerseExactlyWhen(endpoint: Endpoint, profile: Profile,
                                                              targets: seq<Target>, edition: seq<Target>)
    requires SpanInputs(endpoint, targets, edition) && endpoint.isRange && endpoint.start.0 == endpoint.end.0
    requires Decide(endpoint, profile, targets, edition) == MappedProvisional
    ensures EveryVerse(targets, endpoint.start, endpoint.end) <==>
              |edition| == endpoint.end.1 - endpoint.start.1 + 1
  {
    WithinOneChapter(targets, endpoint.start, endpoint.end);
    assert |targets| == |ReferencesOf(targets)| == |ReferencesOf(edition)| == |edition|;
    FullCountIsEveryVerse(targets, endpoint.start, endpoint.end);
  }

  /** Labels determine coordinates, as they do when coordinates are read out of the labels. */
  ghost predicate LabelsDetermine(targets: seq<Target>, edition: seq<Target>) {
    forall i, j :: 0 <= i < |targets| && 0 <= j < |edition| && targets[i].reference == edition[j].reference ==>
      At(targets[i]) == At(edition[j])
  }

  /** When labels determine coordinates, every provisional same-chapter range is every verse in order. */
  lemma {:induction false} ProvisionalIsEveryVerse(endpoint: Endpoint, profile: Profile, targets: seq<Target>,
                                                   edition: seq<Target>)
    requires SpanInputs(endpoint, targets, edition) && endpoint.isRange && endpoint.start.0 == endpoint.end.0
    requires Decide(endpoint, profile, targets, edition) == MappedProvisional && LabelsDetermine(targets, edition)
    ensures EveryVerse(targets, endpoint.start, endpoint.end)
  {
    assert |targets| == |ReferencesOf(targets)| == |ReferencesOf(edition)| == |edition|;
    forall k | 0 <= k < |targets| ensures At(targets[k]) == At(edition[k]) {
      assert ReferencesOf(targets)[k] == ReferencesOf(edition)[k];
    }
    WithinOneChapter(edition, endpoint.start, endpoint.end);
    GapFreeSteps(edition, |edition| - 1);
    ProvisionalIsEveryVerseExactlyWhen(endpoint, profile, targets, edition);
  }

  function Verse(profile: Profile, verse: nat, reference: string): Target {
    Target(reference, (Greek, profile, "JHN"), 1, verse, reference, false, false)
  }

  function Apart(): seq<Target> { [Verse(CriticalCore, 1, "a"), Verse(CriticalCore, 3, "b")] }

  function Next(): seq<Target> { [Verse(EditionComplete, 1, "a"), Verse(EditionComplete, 2, "b")] }

  /** The decision depends on labels that determine coordinates.  Here they do not: the critical targets are verses
      1 and 3, labelled like the edition's verses 1 and 2, and verses 1 to 3 are called provisional. */
  lemma {:induction false} ProvisionalMayMissAVerse()
    ensures var endpoint := Endpoint("JHN", (1, 1), (1, 3), true);
            && SpanInputs(endpoint, Apart(), Next())
            && Decide(endpoint, CriticalCore, Apart(), Next()) == MappedProvisional
            && !EveryVerse(Apart(), (1, 1), (1, 3))
  {
    ApartIsProvisional();
    VersesAt(1, 1, 3, 0);
    assert |CoordinatesOf(Apart())| == 2;
  }

  lemma {:induction false} ApartIsProvisional()
    ensures Decide(Endpoint("JHN", (1, 1), (1, 3), true), CriticalCore, Apart(), Next()) == MappedProvisional
  {
    assert ReferencesOf(Apart()) == ["a", "b"] == ReferencesOf(Next());
    assert !GapBetween(Next()[0], Next()[1]);
  }

  /** Every critical verse, with its label, is an edition verse. */
  ghost predicate ContainedWithLabels(critical: seq<Target>, edition: seq<Target>) {
    forall i :: 0 <= i < |critical| ==> IsLabelledIn(critical[i], edition)
  }

  ghost predicate IsLabelledIn(t: Target, edition: seq<Target>) {
    exists j :: 0 <= j < |edition| && At(edition[j]) == At(t) && edition[j].reference == t.reference
  }

  lemma {:induction false} InOrder(s: seq<Target>, i: nat, j: nat)
    requires StrictlySorted(s) && i <= j < |s|
    ensures i == j || Before(At(s[i]), At(s[j]))
  {
  }

  /** When the critical verse set is contained in the edition's, a provisional critical mapping implies a
      provisional edition mapping with the same references. */
  lemma {:induction false} CriticalImpliesEdition(endpoint: Endpoint, critical: seq<Target>, edition: seq<Target>)
    requires SpanInputs(endpoint, critical, edition) && ContainedWithLabels(critical, edition)
    requires !endpoint.isRange ==> endpoint.start == endpoint.end
    requires Decide(endpoint, CriticalCore, critical, edition) == MappedProvisional
    ensures Decide(endpoint, EditionComplete, edition, edition) == MappedProvisional
    ensures ReferencesOf(edition) == ReferencesOf(critical)
  {
    var last := |critical| - 1;
    assert IsLabelledIn(critical[0], edition) && IsLabelledIn(critical[last], edition);
    var first :| 0 <= first < |edition| && At(edition[first]) == At(critical[0])
      && edition[first].reference == critical[0].reference;
    var final :| 0 <= final < |edition| && At(edition[final]) == At(critical[last]);
    InOrder(edition, 0, first);
    InOrder(edition, final, |edition| - 1);
    InOrder(edition, 0, |edition| - 1);
    if !endpoint.isRange {
      assert ReferencesOf(edition) == [edition[0].reference] == ReferencesOf(critical);
    }
  }

  // ----- The same statements about a loaded index -----

  lemma {:induction false} IndexSuppliesSpanInputs(index: PassageReferenceIndex, all: seq<Target>, endpoint: Endpoint,
                                                   profile: Profile, corpus: Corpus)
    requires index.Describes(all)
    ensures SpanInputs(endpoint, SpanOf(index, endpoint, profile, corpus),
            SpanOf(index, endpoint, EditionComplete, corpus))
  {
    var targets := index.Targets((corpus, profile, endpoint.book));
    var edition := index.Targets((corpus, EditionComplete, endpoint.book));
    SpanFilterMembers(targets, endpoint.start, endpoint.end);
    SpanFilterMembers(edition, endpoint.start, endpoint.end);
    var span, editionSpan := SpanOf(index, endpoint, profile, corpus), SpanOf(index, endpoint, EditionComplete, corpus);
    assert forall k :: 0 <= k < |span| ==> span[k] in span;
    assert forall k :: 0 <= k < |editionSpan| ==> editionSpan[k] in editionSpan;
  }

  /** The critical verses of every stream are edition verses with the same label. */
  ghost predicate CoreIsContained(all: seq<Target>) {
    forall t :: t in all && t.stream.1 == CriticalCore ==>
      exists u :: u in all && u.stream == (t.stream.0, EditionComplete, t.stream.2) && At(u) == At(t)
                  && u.reference == t.reference
  }

  lemma {:induction false} IndexedMembers(index: PassageReferenceIndex, all: seq<Target>, stream: Stream, t: Target)
    requires index.Describes(all)
    ensures t in index.Targets(stream) <==> t in all && t.stream == stream
  {
    OfStreamContents(all, stream, t);
    assert t in index.Targets(stream) <==> t in multiset(index.Targets(stream));
    assert t in OfStream(all, stream) <==> t in multiset(OfStream(all, stream));
  }

  /** Over a loaded index whose core is contained in its edition, a provisional core mapping of an endpoint
      implies a provisional edition mapping of it to the same references. */
  lemma {:induction false} CoreMappingImpliesEditionMapping(index: PassageReferenceIndex, all: seq<Target>,
                                                            endpoint: Endpoint, corpus: Corpus)
    requires index.Describes(all) && CoreIsContained(all)
    requires !endpoint.isRange ==> endpoint.start == endpoint.end
    requires DecidedBy(index, endpoint, CriticalCore, corpus).0 == MappedProvisional
    ensures var (status, targets) := DecidedBy(index, endpoint, EditionComplete, corpus);
            status == MappedProvisional
            && ReferencesOf(targets) == ReferencesOf(DecidedBy(index, endpoint, CriticalCore, corpus).1)
  {
    IndexSuppliesSpanInputs(index, all, endpoint, CriticalCore, corpus);
    CoreSpanIsContained(index, all, endpoint, corpus);
    CriticalImpliesEdition(endpoint, SpanOf(index, endpoint, CriticalCore, corpus),
      SpanOf(index, endpoint, EditionComplete, corpus));
  }

  lemma {:induction false} CoreSpanIsContained(index: PassageReferenceIndex, all: seq<Target>, endpoint: Endpoint,
                                               corpus: Corpus)
    requires index.Describes(all) && CoreIsContained(all)
    ensures ContainedWithLabels(SpanOf(index, endpoint, CriticalCore, corpus),
            SpanOf(index, endpoint, EditionComplete, corpus))
  {
    var critical := SpanOf(index, endpoint, CriticalCore, corpus);
    var edition := SpanOf(index, endpoint, EditionComplete, corpus);
    forall i | 0 <= i < |critical|
      ensures IsLabelledIn(critical[i], edition)
    {
      var u := CoreTargetIsInEdition(index, all, endpoint, corpus, critical[i]);
      var j :| 0 <= j < |edition| && edition[j] == u;
    }
  }

  lemma {:induction false} CoreTargetIsInEdition(index: PassageReferenceIndex, all: seq<Target>, endpoint: Endpoint,
                                                 corpus: Corpus, t: Target)
    returns (u: Target)
    requires index.Describes(all) && CoreIsContained(all) && t in SpanOf(index, endpoint, CriticalCore, corpus)
    ensures u in SpanOf(index, endpoint, EditionComplete, corpus) && At(u) == At(t) && u.reference == t.reference
  {
    var core, full := (corpus, CriticalCore, endpoint.book), (corpus, EditionComplete, endpoint.book);
    SpanFilterMembers(index.Targets(core), endpoint.start, endpoint.end);
    SpanFilterMembers(index.Targets(full), endpoint.start, endpoint.end);
    IndexedMembers(index, all, core, t);
    u :| u in all && u.stream == (t.stream.0, EditionComplete, t.stream.2) && At(u) == At(t)
      && u.reference == t.reference;
    IndexedMembers(index, all, full, u);
  }
}
