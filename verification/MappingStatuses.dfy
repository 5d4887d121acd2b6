/** When each mapping status is given, said of the verses of the passage index alone: which of them the profile and the
    edition carry between the endpoint's start and end, how they are labelled, and whether they leave a gap. */
module MappingStatuses {
  import opened Wrappers
  import opened Coordinates
  import opened Mapping
  import opened MappingDecision
  import opened PassageLoading

  // ----- The carried verses -----

  /** The target lies between the two coordinates, by chapter and then by verse. */
  predicate Lies(t: Target, start: Coordinate, end: Coordinate) {
    && (start.0 < t.chapter || (start.0 == t.chapter && start.1 <= t.verse))
    && (t.chapter < end.0 || (t.chapter == end.0 && t.verse <= end.1))
  }

  predicate Earlier(t: Target, u: Target) {
    t.chapter < u.chapter || (t.chapter == u.chapter && t.verse < u.verse)
  }

  ghost predicate Carries(all: seq<Target>, stream: Stream, e: Endpoint, t: Target) {
    t in all && t.stream == stream && Lies(t, e.start, e.end)
  }

  ghost predicate CarriesAny(all: seq<Target>, stream: Stream, e: Endpoint) {
    exists t :: Carries(all, stream, e, t)
  }

  ghost predicate CarriesAt(all: seq<Target>, stream: Stream, e: Endpoint, c: Coordinate) {
    exists t :: Carries(all, stream, e, t) && t.chapter == c.0 && t.verse == c.1
  }

  ghost predicate CarriesGap(all: seq<Target>, stream: Stream, e: Endpoint) {
    exists t :: Carries(all, stream, e, t) && t.referenceGap
  }

  /** The verse after, or the first verse of the chapter after. */
  predicate Follows(t: Target, u: Target) {
    || (u.chapter == t.chapter && u.verse == t.verse + 1)
    || (u.chapter == t.chapter + 1 && u.verse == 1)
  }

  ghost predicate AreNeighbours(all: seq<Target>, stream: Stream, e: Endpoint, t: Target, u: Target) {
    && Carries(all, stream, e, t) && Carries(all, stream, e, u) && Earlier(t, u)
    && forall v :: Carries(all, stream, e, v) ==> !(Earlier(t, v) && Earlier(v, u))
  }

  /** Every two neighbouring verses follow one another. */
  ghost predicate RunsOn(all: seq<Target>, stream: Stream, e: Endpoint) {
    forall t, u :: AreNeighbours(all, stream, e, t, u) ==> Follows(t, u)
  }

  /** The carried verses, in order. */
  ghost predicate Lists(s: seq<Target>, all: seq<Target>, stream: Stream, e: Endpoint) {
    && (forall i, j :: 0 <= i < j < |s| ==> Earlier(s[i], s[j]))
    && (forall t :: t in s <==> Carries(all, stream, e, t))
  }

  predicate SameReferences(s: seq<Target>, t: seq<Target>) {
    |s| == |t| && forall k :: 0 <= k < |s| ==> s[k].reference == t[k].reference
  }

  /** In order, both streams carry the same labels. */
  ghost predicate SameLabels(all: seq<Target>, stream: Stream, other: Stream, e: Endpoint) {
    exists s, t :: Lists(s, all, stream, e) && Lists(t, all, other, e) && SameReferences(s, t)
  }

  lemma {:induction false} SpanLists(index: PassageReferenceIndex, all: seq<Target>, e: Endpoint, profile: Profile,
                                     corpus: Corpus)
    requires index.Describes(all)
    ensures Lists(SpanOf(index, e, profile, corpus), all, (corpus, profile, e.book), e)
  {
    var stream := (corpus, profile, e.book);
    SpanFilterMembers(index.Targets(stream), e.start, e.end);
    forall t ensures t in SpanOf(index, e, profile, corpus) <==> Carries(all, stream, e, t) {
      IndexedMembers(index, all, stream, t);
    }
  }

  lemma {:induction false} ListingIncreases(s: seq<Target>, all: seq<Target>, stream: Stream, e: Endpoint)
    requires Lists(s, all, stream, e)
    ensures Increasing(CoordinatesOf(s))
  {
  }

  /** Some verse of the second list stands where each of the first does. */
  ghost predicate Covers(s: seq<Target>, t: seq<Target>) {
    forall x :: x in s ==> At(x) in CoordinatesOf(t)
  }

  lemma {:induction false} SameCoordinates(s: seq<Target>, t: seq<Target>)
    requires Increasing(CoordinatesOf(s)) && Increasing(CoordinatesOf(t)) && Covers(s, t) && Covers(t, s)
    ensures CoordinatesOf(s) == CoordinatesOf(t)
  {
    forall c ensures c in CoordinatesOf(s) <==> c in CoordinatesOf(t) {
      CoordinateMembership(s, c);
      CoordinateMembership(t, c);
    }
    IncreasingIsDetermined(CoordinatesOf(s), CoordinatesOf(t));
  }

  lemma {:induction false} IncreasingApart(s: seq<Coordinate>, m: nat, k: nat)
    requires Increasing(s) && m < |s| && k < |s| && s[m] == s[k]
    ensures m == k
  {
  }

  lemma {:induction false} PlaceIsUnique(s: seq<Target>, k: nat, x: Target)
    requires Increasing(CoordinatesOf(s)) && k < |s| && x in s && At(x) == At(s[k])
    ensures x == s[k]
  {
    var m :| 0 <= m < |s| && s[m] == x;
    IncreasingApart(CoordinatesOf(s), m, k);
  }

  lemma {:induction false} MembersAreCovered(s: seq<Target>, t: seq<Target>)
    requires forall x :: x in s ==> x in t
    ensures Covers(s, t)
  {
    forall x | x in s ensures At(x) in CoordinatesOf(t) {
      CoordinateMembership(t, At(x));
    }
  }

  lemma {:induction false} ListingIsDetermined(s: seq<Target>, t: seq<Target>, all: seq<Target>, stream: Stream,
                                               e: Endpoint)
    requires Lists(s, all, stream, e) && Lists(t, all, stream, e)
    ensures s == t
  {
    ListingIncreases(s, all, stream, e);
    ListingIncreases(t, all, stream, e);
    MembersAreCovered(s, t);
    MembersAreCovered(t, s);
    SameCoordinates(s, t);
    assert |s| == |CoordinatesOf(s)| == |CoordinatesOf(t)| == |t|;
    forall k | 0 <= k < |s| ensures s[k] == t[k] {
      assert CoordinatesOf(s)[k] == CoordinatesOf(t)[k] && s[k] in t;
      PlaceIsUnique(t, k, s[k]);
    }
  }

  /** Both spans of a decision, listed; and labels compare as listed. */
  lemma {:induction false} LabelsAreListed(s: seq<Target>, t: seq<Target>, all: seq<Target>, stream: Stream,
                                           other: Stream, e: Endpoint)
    requires Lists(s, all, stream, e) && Lists(t, all, other, e)
    ensures SameLabels(all, stream, other, e) <==> ReferencesOf(s) == ReferencesOf(t)
  {
    if SameLabels(all, stream, other, e) {
      var p, q :| Lists(p, all, stream, e) && Lists(q, all, other, e) && SameReferences(p, q);
      ListingIsDetermined(s, p, all, stream, e);
      ListingIsDetermined(t, q, all, other, e);
    }
    if ReferencesOf(s) == ReferencesOf(t) {
      assert |s| == |ReferencesOf(s)| == |t|;
      assert forall k :: 0 <= k < |s| ==> s[k].reference == ReferencesOf(s)[k] && t[k].reference == ReferencesOf(t)[k];
    }
  }

  // ----- Gaps -----

  lemma {:induction false} ListedNeighbours(s: seq<Target>, all: seq<Target>, stream: Stream, e: Endpoint, k: nat)
    requires Lists(s, all, stream, e) && k + 1 < |s|
    ensures AreNeighbours(all, stream, e, s[k], s[k + 1])
  {
    forall v | Carries(all, stream, e, v) ensures !(Earlier(s[k], v) && Earlier(v, s[k + 1])) {
      var m :| 0 <= m < |s| && s[m] == v;
      assert m <= k || k + 1 <= m;
      assert m == k || m == k + 1 || Earlier(s[m], s[k]) || Earlier(s[k + 1], s[m]);
    }
  }

  lemma {:induction false} EarlierIsLower(s: seq<Target>, k: nat, m: nat)
    requires (forall i, j :: 0 <= i < j < |s| ==> Earlier(s[i], s[j])) && k < |s| && m < |s| && Earlier(s[k], s[m])
    ensures k < m
  {
  }

  lemma {:induction false} NeighboursAreListed(s: seq<Target>, all: seq<Target>, stream: Stream, e: Endpoint, t: Target,
                                               u: Target)
    returns (k: nat)
    requires Lists(s, all, stream, e) && AreNeighbours(all, stream, e, t, u)
    ensures k + 1 < |s| && s[k] == t && s[k + 1] == u
  {
    k :| 0 <= k < |s| && s[k] == t;
    var m :| 0 <= m < |s| && s[m] == u;
    EarlierIsLower(s, k, m);
    assert Carries(all, stream, e, s[k + 1]);
    assert forall j :: k + 1 < j < |s| ==> Earlier(s[k + 1], s[j]);
  }

  lemma {:induction false} GapFreeExactlyWhenRunsOn(s: seq<Target>, all: seq<Target>, stream: Stream, e: Endpoint)
    requires Lists(s, all, stream, e)
    ensures NumericGaps(s) <==> !RunsOn(all, stream, e)
  {
    if k :| 0 <= k < |s| - 1 && GapBetween(s[k], s[k + 1]) {
      ListedNeighbours(s, all, stream, e, k);
      assert !Follows(s[k], s[k + 1]);
    }
    if !RunsOn(all, stream, e) {
      var t, u :| AreNeighbours(all, stream, e, t, u) && !Follows(t, u);
      var k := NeighboursAreListed(s, all, stream, e, t, u);
      assert GapBetween(s[k], s[k + 1]);
    }
  }

  lemma {:induction false} FlagIsListed(s: seq<Target>, all: seq<Target>, stream: Stream, e: Endpoint)
    requires Lists(s, all, stream, e)
    ensures AnyReferenceGap(s) <==> CarriesGap(all, stream, e)
    ensures s != [] <==> CarriesAny(all, stream, e)
  {
    if t :| Carries(all, stream, e, t) && t.referenceGap {
      var k :| 0 <= k < |s| && s[k] == t;
    }
    if k :| 0 <= k < |s| && s[k].referenceGap { assert Carries(all, stream, e, s[k]); }
    if s != [] { assert Carries(all, stream, e, s[0]); }
  }

  // ----- The ends -----

  lemma {:induction false} FirstIsStart(s: seq<Target>, all: seq<Target>, stream: Stream, e: Endpoint)
    requires Lists(s, all, stream, e) && s != []
    ensures At(s[0]) == e.start <==> CarriesAt(all, stream, e, e.start)
  {
    assert Carries(all, stream, e, s[0]) && forall k :: 0 < k < |s| ==> Earlier(s[0], s[k]);
    if t :| Carries(all, stream, e, t) && t.chapter == e.start.0 && t.verse == e.start.1 {
      var k :| 0 <= k < |s| && s[k] == t;
    }
  }

  lemma {:induction false} LastIsEnd(s: seq<Target>, all: seq<Target>, stream: Stream, e: Endpoint)
    requires Lists(s, all, stream, e) && s != []
    ensures At(s[|s| - 1]) == e.end <==> CarriesAt(all, stream, e, e.end)
  {
    var n := |s| - 1;
    assert Carries(all, stream, e, s[n]) && forall k :: 0 <= k < n ==> Earlier(s[k], s[n]);
    if t :| Carries(all, stream, e, t) && t.chapter == e.end.0 && t.verse == e.end.1 {
      var k :| 0 <= k < |s| && s[k] == t;
    }
  }

  lemma {:induction false} OnePlaceOneVerse(s: seq<Target>, all: seq<Target>, stream: Stream, e: Endpoint)
    requires Lists(s, all, stream, e) && e.start == e.end
    ensures |s| <= 1 && (s != [] ==> At(s[0]) == e.start)
  {
    assert forall k :: 0 <= k < |s| ==> Carries(all, stream, e, s[k]);
    assert |s| > 1 ==> Earlier(s[0], s[1]);
  }

  // ----- The statuses -----

  lemma {:induction false} RangeDecision(e: Endpoint, profile: Profile, targets: seq<Target>, edition: seq<Target>)
    requires e.isRange
    ensures Decide(e, profile, targets, edition) == MappedProvisional <==>
              && targets != [] && At(targets[0]) == e.start && At(targets[|targets| - 1]) == e.end
              && ReferencesOf(targets) == ReferencesOf(edition) && !AnyReferenceGap(edition) && !NumericGaps(edition)
  {
    if ReferencesOf(targets) == ReferencesOf(edition) { assert |targets| == |ReferencesOf(targets)| == |edition|; }
  }

  lemma {:induction false} SingleDecision(e: Endpoint, profile: Profile, targets: seq<Target>, edition: seq<Target>)
    requires !e.isRange && |targets| <= 1 && |edition| <= 1 && (targets != [] ==> At(targets[0]) == e.start)
    ensures var status := Decide(e, profile, targets, edition);
            && (status == MappedProvisional <==> targets != [] && !AnyReferenceGap(edition))
            && (status == MappedPartial <==> targets != [] && AnyReferenceGap(edition))
  {
  }

  /** Without a carried verse, and only then, the endpoint is excluded by the core profile or missing, as the edition
      has verses there or not; with one it is mapped, in full or in part. */
  lemma {:induction false} UnmappedExactlyWhen(index: PassageReferenceIndex, all: seq<Target>, e: Endpoint,
                                               profile: Profile, corpus: Corpus)
    requires index.Describes(all)
    ensures var status := DecidedBy(index, e, profile, corpus).0;
            var carried := CarriesAny(all, (corpus, profile, e.book), e);
            var inEdition := CarriesAny(all, (corpus, EditionComplete, e.book), e);
            && (status == ExcludedByProfile <==> profile == CriticalCore && !carried && inEdition)
            && (status == UnresolvedMissingTarget <==> !carried && (profile == EditionComplete || !inEdition))
            && (status == MappedProvisional || status == MappedPartial <==> carried)
  {
    SpanLists(index, all, e, profile, corpus);
    SpanLists(index, all, e, EditionComplete, corpus);
    FlagIsListed(SpanOf(index, e, profile, corpus), all, (corpus, profile, e.book), e);
    FlagIsListed(SpanOf(index, e, EditionComplete, corpus), all, (corpus, EditionComplete, e.book), e);
  }

  /** The stream carries the verse, and the edition flags no reference gap there. */
  ghost predicate IsWholeVerse(all: seq<Target>, stream: Stream, edition: Stream, e: Endpoint) {
    CarriesAt(all, stream, e, e.start) && !CarriesGap(all, edition, e)
  }

  /** A single verse is provisional exactly when it is carried without a gap, and partial exactly when with one. */
  lemma {:induction false} SingleVerseIsProvisionalExactlyWhen(index: PassageReferenceIndex, all: seq<Target>,
                                                               e: Endpoint, profile: Profile, corpus: Corpus)
    requires index.Describes(all) && !e.isRange && e.start == e.end
    ensures var core, edition := (corpus, profile, e.book), (corpus, EditionComplete, e.book);
            var status := DecidedBy(index, e, profile, corpus).0;
            && (status == MappedProvisional <==> IsWholeVerse(all, core, edition, e))
            && (status == MappedPartial <==> CarriesAt(all, core, e, e.start) && CarriesGap(all, edition, e))
  {
    var targets, edition := SpanOf(index, e, profile, corpus), SpanOf(index, e, EditionComplete, corpus);
    SpanLists(index, all, e, profile, corpus);
    SpanLists(index, all, e, EditionComplete, corpus);
    OnePlaceOneVerse(targets, all, (corpus, profile, e.book), e);
    OnePlaceOneVerse(edition, all, (corpus, EditionComplete, e.book), e);
    FlagIsListed(targets, all, (corpus, profile, e.book), e);
    FlagIsListed(edition, all, (corpus, EditionComplete, e.book), e);
    SingleDecision(e, profile, targets, edition);
    if targets != [] { FirstIsStart(targets, all, (corpus, profile, e.book), e); }
  }

  /** The stream carries both ends, stream and edition carry the same labels in the same order, and the edition neither
      flags a reference gap nor leaves one between neighbouring verses. */
  ghost predicate IsWholeRange(all: seq<Target>, stream: Stream, edition: Stream, e: Endpoint) {
    && CarriesAt(all, stream, e, e.start) && CarriesAt(all, stream, e, e.end)
    && SameLabels(all, stream, edition, e)
    && !CarriesGap(all, edition, e) && RunsOn(all, edition, e)
  }

  /** A range is provisional exactly when it is whole, and partial when it is not but some verse of it is carried. */
  lemma {:induction false} RangeIsProvisionalExactlyWhen(index: PassageReferenceIndex, all: seq<Target>, e: Endpoint,
                                                         profile: Profile, corpus: Corpus)
    requires index.Describes(all) && e.isRange
    ensures var core, edition := (corpus, profile, e.book), (corpus, EditionComplete, e.book);
            var status := DecidedBy(index, e, profile, corpus).0;
            && (status == MappedProvisional <==> IsWholeRange(all, core, edition, e))
            && (status == MappedPartial <==> CarriesAny(all, core, e) && !IsWholeRange(all, core, edition, e))
  {
    var core, full := (corpus, profile, e.book), (corpus, EditionComplete, e.book);
    var targets, edition := SpanOf(index, e, profile, corpus), SpanOf(index, e, EditionComplete, corpus);
    SpanLists(index, all, e, profile, corpus);
    SpanLists(index, all, e, EditionComplete, corpus);
    FlagIsListed(targets, all, core, e);
    FlagIsListed(edition, all, full, e);
    GapFreeExactlyWhenRunsOn(edition, all, full, e);
    LabelsAreListed(targets, edition, all, core, full, e);
    RangeDecision(e, profile, targets, edition);
    UnmappedExactlyWhen(index, all, e, profile, corpus);
    if targets != [] {
      FirstIsStart(targets, all, core, e);
      LastIsEnd(targets, all, core, e);
    }
  }

  // ----- Over loaded indexes -----

  /** Every verse the first stream carries, the other carries too, with the same label. */
  ghost predicate CarriedAlike(all: seq<Target>, stream: Stream, other: Stream, e: Endpoint) {
    forall t :: Carries(all, stream, e, t) ==>
      exists u ::
        Carries(all, other, e, u) && u.chapter == t.chapter && u.verse == t.verse && u.reference == t.reference
  }

  lemma {:induction false} AlikeAreCovered(s: seq<Target>, t: seq<Target>, all: seq<Target>, stream: Stream,
                                           other: Stream, e: Endpoint)
    requires Lists(s, all, stream, e) && Lists(t, all, other, e) && CarriedAlike(all, stream, other, e)
    ensures Covers(s, t)
  {
    forall x | x in s ensures At(x) in CoordinatesOf(t) {
      assert Carries(all, stream, e, x);
      var u :| Carries(all, other, e, u) && u.chapter == x.chapter && u.verse == x.verse;
      CoordinateMembership(t, At(x));
      assert u in t && At(u) == At(x);
    }
  }

  lemma {:induction false} LabelAtPlace(s: seq<Target>, t: seq<Target>, all: seq<Target>, stream: Stream, other: Stream,
                                        e: Endpoint, k: nat)
    requires Lists(s, all, stream, e) && Lists(t, all, other, e) && CarriedAlike(all, stream, other, e)
    requires k < |s| && k < |t| && At(s[k]) == At(t[k])
    ensures s[k].reference == t[k].reference
  {
    ListingIncreases(t, all, other, e);
    assert Carries(all, stream, e, s[k]);
    var u :| Carries(all, other, e, u) && u.chapter == s[k].chapter && u.verse == s[k].verse
      && u.reference == s[k].reference;
    PlaceIsUnique(t, k, u);
  }

  lemma {:induction false} AlikeAreSame(s: seq<Target>, t: seq<Target>, all: seq<Target>, stream: Stream, other: Stream,
                                        e: Endpoint)
    requires Lists(s, all, stream, e) && Lists(t, all, other, e)
    requires CarriedAlike(all, stream, other, e) && CarriedAlike(all, other, stream, e)
    ensures SameReferences(s, t)
  {
    ListingIncreases(s, all, stream, e);
    ListingIncreases(t, all, other, e);
    AlikeAreCovered(s, t, all, stream, other, e);
    AlikeAreCovered(t, s, all, other, stream, e);
    SameCoordinates(s, t);
    assert |s| == |CoordinatesOf(s)| == |CoordinatesOf(t)| == |t|;
    forall k | 0 <= k < |s| ensures s[k].reference == t[k].reference {
      assert CoordinatesOf(s)[k] == CoordinatesOf(t)[k];
      LabelAtPlace(s, t, all, stream, other, e, k);
    }
  }

  /** Where labels name coordinates, the same labels in order are the same verses under the same labels. */
  lemma {:induction false} SameLabelsAreSameVerses(all: seq<Target>, number: string -> Option<nat>, s: seq<Target>,
                                                   t: seq<Target>, stream: Stream, other: Stream, e: Endpoint)
    requires LabelledBy(all, number) && Lists(s, all, stream, e) && Lists(t, all, other, e)
    ensures SameLabels(all, stream, other, e) <==>
              CarriedAlike(all, stream, other, e) && CarriedAlike(all, other, stream, e)
  {
    LabelsAreListed(s, t, all, stream, other, e);
    if SameLabels(all, stream, other, e) {
      SameAreAlike(all, number, s, t, stream, other, e);
      SameAreAlike(all, number, t, s, other, stream, e);
    }
    if CarriedAlike(all, stream, other, e) && CarriedAlike(all, other, stream, e) {
      AlikeAreSame(s, t, all, stream, other, e);
    }
  }

  lemma {:induction false} SameAreAlike(all: seq<Target>, number: string -> Option<nat>, s: seq<Target>, t: seq<Target>,
                                        stream: Stream, other: Stream, e: Endpoint)
    requires LabelledBy(all, number) && Lists(s, all, stream, e) && Lists(t, all, other, e)
    requires ReferencesOf(s) == ReferencesOf(t)
    ensures CarriedAlike(all, stream, other, e)
  {
    assert |s| == |ReferencesOf(s)| == |ReferencesOf(t)| == |t|;
    forall x | Carries(all, stream, e, x)
      ensures exists u :: Carries(all, other, e, u) && u.chapter == x.chapter && u.verse == x.verse
                && u.reference == x.reference
    {
      var k :| 0 <= k < |s| && s[k] == x;
      assert ReferencesOf(s)[k] == ReferencesOf(t)[k] && t[k] in t;
      assert Carries(all, other, e, t[k]);
      assert Some(At(x)) == Some(At(t[k]));
    }
  }

  /** Over every index the loader builds, a range is provisional exactly when the profile carries both its ends, profile
      and edition carry the same verses under the same labels, and the edition has no flagged or numeric gap. */
  lemma {:induction false} LoadedRangeIsProvisionalExactlyWhen(index: PassageReferenceIndex, all: seq<Target>,
                                                               e: Endpoint, profile: Profile, corpus: Corpus,
                                                               number: string -> Option<nat>)
    requires index.Describes(all) && LabelledBy(all, number) && e.isRange
    ensures var core, edition := (corpus, profile, e.book), (corpus, EditionComplete, e.book);
            DecidedBy(index, e, profile, corpus).0 == MappedProvisional <==>
              && CarriesAt(all, core, e, e.start) && CarriesAt(all, core, e, e.end)
              && CarriedAlike(all, core, edition, e) && CarriedAlike(all, edition, core, e)
              && !CarriesGap(all, edition, e) && RunsOn(all, edition, e)
  {
    RangeIsProvisionalExactlyWhen(index, all, e, profile, corpus);
    SpanLists(index, all, e, profile, corpus);
    SpanLists(index, all, e, EditionComplete, corpus);
    SameLabelsAreSameVerses(all, number, SpanOf(index, e, profile, corpus), SpanOf(index, e, EditionComplete, corpus),
                            (corpus, profile, e.book), (corpus, EditionComplete, e.book), e);
  }
}
