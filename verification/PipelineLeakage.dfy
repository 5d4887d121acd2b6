/** `_leakage_inputs` of src/echoes/benchmarks/pipeline.py: endpoints with their reference spans and mapped targets
    become leakage inputs, and what the two swept views then hold together is said of spans and passages. */
module PipelineLeakage {
  import opened Wrappers
  import opened Ordering
  import opened BenchmarkRows
  import opened References
  import opened LeakageSweep
  import opened LeakageInputs
  import opened LeakageRows
  import opened LeakageGroups

  /** The verse passages of one book in the complete edition, in stream order. */
  datatype EditionStream = EditionStream(book: string, passages: seq<Id>)

  /** Where a passage stands: its book and its place among the extant passages of the book, from one. */
  type Places = map<Id, (string, nat)>

  datatype MappedEndpoint = MappedEndpoint(endpoint: Endpoint, targets: seq<Id>)

  datatype MappedRelationship = MappedRelationship(
    relationshipId: Id, directed: string, undirected: string, first: MappedEndpoint, second: MappedEndpoint,
    sourceRecords: set<string>)

  datatype BuildError = UnknownPassage | InvalidEndpoint

  // ----- Target coordinates -----

  /** `enumerate(targets, start=1)` over the first passages of a stream. */
  function Placed(c: Places, stream: EditionStream, n: nat): Places
    requires n <= |stream.passages|
  {
    if n == 0 then c else Placed(c, stream, n - 1)[stream.passages[n - 1] := (stream.book, n)]
  }

  function TargetPlaces(streams: seq<EditionStream>): Places {
    if streams == [] then map[]
    else
      var last := streams[|streams| - 1];
      Placed(TargetPlaces(streams[..|streams| - 1]), last, |last.passages|)
  }

  /** One stream per book, and no passage twice. */
  ghost predicate IsIndexed(streams: seq<EditionStream>) {
    && (forall m, n | 0 <= m < n < |streams| :: streams[m].book != streams[n].book)
    && (forall m, i, n, j | 0 <= m < |streams| && 0 <= i < |streams[m].passages| && 0 <= n < |streams|
          && 0 <= j < |streams[n].passages| && streams[m].passages[i] == streams[n].passages[j] :: m == n && i == j)
  }

  lemma {:induction false} PlacedAt(c: Places, stream: EditionStream, n: nat, i: nat)
    requires i < n <= |stream.passages|
    requires forall j, k | 0 <= j < k < |stream.passages| :: stream.passages[j] != stream.passages[k]
    ensures stream.passages[i] in Placed(c, stream, n)
            && Placed(c, stream, n)[stream.passages[i]] == (stream.book, i + 1)
  {
    if i < n - 1 { PlacedAt(c, stream, n - 1, i); }
  }

  lemma {:induction false} PlacedKeeps(c: Places, stream: EditionStream, n: nat, id: Id)
    requires n <= |stream.passages| && id !in stream.passages && id in c
    ensures id in Placed(c, stream, n) && Placed(c, stream, n)[id] == c[id]
  {
    if n > 0 { PlacedKeeps(c, stream, n - 1, id); }
  }

  /** A passage's coordinate is its book and its place in the book's stream. */
  lemma {:induction false} PlaceOfPassage(streams: seq<EditionStream>, m: nat, i: nat)
    requires IsIndexed(streams) && m < |streams| && i < |streams[m].passages|
    ensures streams[m].passages[i] in TargetPlaces(streams)
    ensures TargetPlaces(streams)[streams[m].passages[i]] == (streams[m].book, i + 1)
  {
    var n := |streams| - 1;
    var front, last := streams[..n], streams[n];
    var id := streams[m].passages[i];
    if m == n {
      PlacedAt(TargetPlaces(front), last, |last.passages|, i);
    } else {
      assert front[m] == streams[m];
      FrontIsIndexed(streams);
      PlaceOfPassage(front, m, i);
      PassageIsElsewhere(streams, m, i, n);
      PlacedKeeps(TargetPlaces(front), last, |last.passages|, id);
    }
  }

  lemma {:induction false} PassageIsElsewhere(streams: seq<EditionStream>, m: nat, i: nat, n: nat)
    requires IsIndexed(streams) && m < |streams| && i < |streams[m].passages| && n < |streams| && m != n
    ensures streams[m].passages[i] !in streams[n].passages
  {
    assert forall j | 0 <= j < |streams[n].passages| :: streams[m].passages[i] != streams[n].passages[j];
  }

  lemma {:induction false} FrontIsIndexed(streams: seq<EditionStream>)
    requires IsIndexed(streams) && streams != []
    ensures IsIndexed(streams[..|streams| - 1])
  {
    var front := streams[..|streams| - 1];
    assert forall k | 0 <= k < |front| :: front[k] == streams[k];
  }

  lemma {:induction false} PlacedFromOne(c: Places, stream: EditionStream, n: nat)
    requires n <= |stream.passages| && forall id | id in c :: c[id].1 >= 1
    ensures forall id | id in Placed(c, stream, n) :: Placed(c, stream, n)[id].1 >= 1
  {
    if n > 0 { PlacedFromOne(c, stream, n - 1); }
  }

  lemma {:induction false} PlacesFromOne(streams: seq<EditionStream>)
    ensures forall id | id in TargetPlaces(streams) :: TargetPlaces(streams)[id].1 >= 1
  {
    if streams != [] {
      var n := |streams| - 1;
      PlacesFromOne(streams[..n]);
      PlacedFromOne(TargetPlaces(streams[..n]), streams[n], |streams[n].passages|);
    }
  }

  // ----- Rendering -----

  predicate IsKnown(targets: seq<Id>, c: Places) { forall id | id in targets :: id in c }

  function Least(ordinals: seq<nat>): (m: nat)
    requires ordinals != []
    ensures m in ordinals && forall o | o in ordinals :: m <= o
  {
    if |ordinals| == 1 then ordinals[0]
    else
      assert ordinals == [ordinals[0]] + ordinals[1..];
      var m := Least(ordinals[1..]);
      if ordinals[0] < m then ordinals[0] else m
  }

  function Greatest(ordinals: seq<nat>): (m: nat)
    requires ordinals != []
    ensures m in ordinals && forall o | o in ordinals :: o <= m
  {
    if |ordinals| == 1 then ordinals[0]
    else
      assert ordinals == [ordinals[0]] + ordinals[1..];
      var m := Greatest(ordinals[1..]);
      if ordinals[0] > m then ordinals[0] else m
  }

  function OrdinalsOf(targets: seq<Id>, c: Places): seq<nat>
    requires IsKnown(targets, c)
  {
    seq(|targets|, k requires 0 <= k < |targets| => c[targets[k]].1)
  }

  predicate InOneBook(targets: seq<Id>, c: Places)
    requires IsKnown(targets, c)
  {
    forall id | id in targets :: c[id].0 == c[targets[0]].0
  }

  /** The target coordinates of an endpoint: none without targets, and otherwise the first and last place. */
  function RangeOf(targets: seq<Id>, c: Places): Option<TargetRange>
    requires IsKnown(targets, c)
  {
    if targets == [] then None
    else Some(TargetRange(c[targets[0]].0, Least(OrdinalsOf(targets, c)), Greatest(OrdinalsOf(targets, c))))
  }

  function KeyOf(e: Endpoint): string {
    match e
    case Parsed(span) => Normalized(span)
    case Unresolved(reference) => reference
  }

  /** An endpoint is refused when its targets lie in several books, so that book and ordinals disagree about being
      present, or when its packed ordinals run backward. */
  predicate CanRender(e: MappedEndpoint, c: Places, digest: string -> nat)
    requires IsKnown(e.targets, c)
  {
    e.endpoint.Parsed? ==>
      && InOneBook(e.targets, c)
      && IsOrderedInterval(EndpointInterval(e.endpoint, "", digest))
  }

  /** Targets of a reference that did not parse are looked up and then dropped. */
  function Render(e: MappedEndpoint, c: Places, digest: string -> nat): LeakageEndpoint
    requires IsKnown(e.targets, c)
  {
    var i := EndpointInterval(e.endpoint, "", digest);
    LeakageEndpoint(KeyOf(e.endpoint), i.book, i.start, i.end,
                    if e.endpoint.Parsed? then e.targets else [],
                    if e.endpoint.Parsed? then RangeOf(e.targets, c) else None)
  }

  predicate IsBuildable(r: MappedRelationship, c: Places, digest: string -> nat) {
    && IsKnown(r.first.targets, c) && IsKnown(r.second.targets, c)
    && CanRender(r.first, c, digest) && CanRender(r.second, c, digest)
  }

  function InputOf(r: MappedRelationship, c: Places, digest: string -> nat): Input
    requires IsBuildable(r, c, digest)
  {
    Input(r.relationshipId, r.directed, r.undirected, Render(r.first, c, digest), Render(r.second, c, digest),
          if |r.sourceRecords| > 1 then r.sourceRecords else {}, {}, None)
  }

  ghost predicate AreInputs(inputs: seq<Input>, relationships: seq<MappedRelationship>, c: Places,
                            digest: string -> nat) {
    && |inputs| == |relationships|
    && (forall k | 0 <= k < |relationships| ::
          IsBuildable(relationships[k], c, digest) && inputs[k] == InputOf(relationships[k], c, digest))
  }

  /** Every target is known; and a parsed endpoint's targets lie in one book and its packed ordinals run forward. */
  ghost predicate EndpointIsSound(e: MappedEndpoint, c: Places, digest: string -> nat) {
    && (forall id | id in e.targets :: id in c)
    && match e.endpoint
       case Unresolved(_) => true
       case Parsed(span) =>
         && (forall p, q | p in e.targets && q in e.targets :: c[p].0 == c[q].0)
         && 1 <= span.start.chapter * 1000 + span.start.verse <= span.end.chapter * 1000 + span.end.verse
  }

  /** Which relationships can be rendered, of their endpoints alone. */
  lemma {:induction false} BuildableExactlyWhen(r: MappedRelationship, c: Places, digest: string -> nat)
    ensures IsBuildable(r, c, digest) <==> EndpointIsSound(r.first, c, digest) && EndpointIsSound(r.second, c, digest)
  {
    RendersExactlyWhen(r.first, c, digest);
    RendersExactlyWhen(r.second, c, digest);
  }

  lemma {:induction false} RendersExactlyWhen(e: MappedEndpoint, c: Places, digest: string -> nat)
    ensures IsKnown(e.targets, c) && CanRender(e, c, digest) <==> EndpointIsSound(e, c, digest)
  {
    if IsKnown(e.targets, c) {
      if e.targets != [] { assert e.targets[0] in e.targets; }
    }
  }

  method BuildInputs(relationships: seq<MappedRelationship>, streams: seq<EditionStream>, digest: string -> nat)
    returns (r: Result<seq<Input>, BuildError>)
    ensures r.Success? <==>
              forall k | 0 <= k < |relationships| :: IsBuildable(relationships[k], TargetPlaces(streams), digest)
    ensures r.Success? ==> AreInputs(r.value, relationships, TargetPlaces(streams), digest)
  {
    var c := TargetPlaces(streams);
    var inputs: seq<Input> := [];
    for i := 0 to |relationships|
      invariant AreInputs(inputs, relationships[..i], c, digest)
    {
      var relationship := relationships[i];
      assert forall k | 0 <= k < i :: relationships[..i][k] == relationships[k];
      if !IsKnown(relationship.first.targets, c) || !IsKnown(relationship.second.targets, c) {
        return Failure(UnknownPassage);
      }
      if !CanRender(relationship.first, c, digest) || !CanRender(relationship.second, c, digest) {
        return Failure(InvalidEndpoint);
      }
      inputs := inputs + [InputOf(relationship, c, digest)];
    }
    assert relationships[..|relationships|] == relationships;
    r := Success(inputs);
  }

  lemma {:induction false} InputIsValid(r: MappedRelationship, c: Places, digest: string -> nat)
    requires IsBuildable(r, c, digest) && forall id | id in c :: c[id].1 >= 1
    ensures InputOf(r, c, digest).Valid()
  {
    RenderedIsValid(r.first, c, digest);
    RenderedIsValid(r.second, c, digest);
  }

  lemma {:induction false} RenderedIsValid(e: MappedEndpoint, c: Places, digest: string -> nat)
    requires IsKnown(e.targets, c) && CanRender(e, c, digest) && forall id | id in c :: c[id].1 >= 1
    ensures Render(e, c, digest).Valid()
  {
    if e.endpoint.Parsed? && e.targets != [] {
      var ordinals := OrdinalsOf(e.targets, c);
      assert ordinals[0] in ordinals;
    }
  }

  lemma {:induction false} InputsAreValid(inputs: seq<Input>, relationships: seq<MappedRelationship>,
                                          streams: seq<EditionStream>, digest: string -> nat)
    requires AreInputs(inputs, relationships, TargetPlaces(streams), digest)
    ensures AllValid(Elements(inputs))
  {
    PlacesFromOne(streams);
    forall k | 0 <= k < |inputs|
      ensures inputs[k].Valid()
    {
      InputIsValid(relationships[k], TargetPlaces(streams), digest);
    }
  }

  // ----- Source overlap is meeting of references -----

  function LinkedOf(relationships: seq<MappedRelationship>): seq<Linked> {
    seq(|relationships|, k requires 0 <= k < |relationships| =>
      Linked(relationships[k].relationshipId, relationships[k].first.endpoint, relationships[k].second.endpoint))
  }

  lemma {:induction false} RenderedInterval(e: MappedEndpoint, c: Places, digest: string -> nat, x: Id)
    requires IsKnown(e.targets, c)
    ensures SourceInterval(Render(e, c, digest), x) == EndpointInterval(e.endpoint, x, digest)
  {
  }

  lemma {:induction false} HeadIntervals(r: MappedRelationship, c: Places, digest: string -> nat)
    requires IsBuildable(r, c, digest)
    ensures var input := InputOf(r, c, digest);
            EndpointIntervals(input.first, input.relationshipId, EndpointOverlap)
            + EndpointIntervals(input.second, input.relationshipId, EndpointOverlap)
            == [EndpointInterval(r.first.endpoint, r.relationshipId, digest),
              EndpointInterval(r.second.endpoint, r.relationshipId, digest)]
  {
    RenderedInterval(r.first, c, digest, r.relationshipId);
    RenderedInterval(r.second, c, digest, r.relationshipId);
  }

  lemma {:induction false} SourceIntervalsAgree(inputs: seq<Input>, relationships: seq<MappedRelationship>, c: Places,
                                                digest: string -> nat)
    requires AreInputs(inputs, relationships, c, digest)
    ensures ListIntervals(inputs, EndpointOverlap) == SourceIntervals(LinkedOf(relationships), digest)
  {
    if inputs != [] {
      HeadIntervals(relationships[0], c, digest);
      RestAreInputs(inputs, relationships, c, digest);
      SourceIntervalsAgree(inputs[1..], relationships[1..], c, digest);
      assert LinkedOf(relationships)[1..] == LinkedOf(relationships[1..]);
    }
  }

  lemma {:induction false} RestAreInputs(inputs: seq<Input>, relationships: seq<MappedRelationship>, c: Places,
                                         digest: string -> nat)
    requires AreInputs(inputs, relationships, c, digest) && inputs != []
    ensures AreInputs(inputs[1..], relationships[1..], c, digest)
  {
  }

  ghost predicate ArePackable(relationships: seq<MappedRelationship>) {
    forall k | 0 <= k < |relationships| ::
      IsPackable(relationships[k].first.endpoint) && IsPackable(relationships[k].second.endpoint)
  }

  /** The source view holds together exactly relationships whose reference spans intersect by chapter and verse. */
  lemma {:induction false} SourceViewIsMeeting(inputs: seq<Input>, relationships: seq<MappedRelationship>, c: Places,
                                               digest: string -> nat, x: Id, y: Id)
    requires AreInputs(inputs, relationships, c, digest) && ArePackable(relationships)
    ensures Related(Elements(inputs), EndpointOverlap, x, y) <==> ReferencesMeet(LinkedOf(relationships), x, y, digest)
  {
    SourceIntervalsAgree(inputs, relationships, c, digest);
    ListedIntervals(inputs, EndpointOverlap);
    OverlapIsMeeting(LinkedOf(relationships), x, y, digest);
  }

  // ----- Target overlap is sharing of passages -----

  /** The targets, if any, are a run of one book's extant passages, as the mapping of a reference span is. */
  ghost predicate IsRun(targets: seq<Id>, streams: seq<EditionStream>) {
    targets == [] || exists n: nat, lo: nat, hi: nat ::
      n < |streams| && lo <= hi <= |streams[n].passages| && targets == streams[n].passages[lo..hi]
  }

  ghost predicate AreRuns(relationships: seq<MappedRelationship>, streams: seq<EditionStream>) {
    forall k | 0 <= k < |relationships| ::
      IsRun(relationships[k].first.targets, streams) && IsRun(relationships[k].second.targets, streams)
  }

  lemma {:induction false} RunIsKnown(streams: seq<EditionStream>, n: nat, lo: nat, hi: nat)
    requires IsIndexed(streams) && n < |streams| && lo <= hi <= |streams[n].passages|
    ensures var targets := streams[n].passages[lo..hi]; var c := TargetPlaces(streams);
            && IsKnown(targets, c)
            && (forall k | 0 <= k < |targets| :: c[targets[k]] == (streams[n].book, lo + k + 1))
  {
    var targets := streams[n].passages[lo..hi];
    forall k | 0 <= k < |targets|
      ensures targets[k] in TargetPlaces(streams)
      ensures TargetPlaces(streams)[targets[k]] == (streams[n].book, lo + k + 1)
    {
      PlaceOfPassage(streams, n, lo + k);
    }
  }

  /** Targets at consecutive places have the range from the first place to the last. */
  lemma {:induction false} ConsecutiveRange(targets: seq<Id>, c: Places, book: string, start: nat)
    requires targets != [] && IsKnown(targets, c)
    requires forall k | 0 <= k < |targets| :: c[targets[k]] == (book, start + k)
    ensures RangeOf(targets, c) == Some(TargetRange(book, start, start + |targets| - 1))
  {
    var ordinals := OrdinalsOf(targets, c);
    assert c[targets[0]] == (book, start);
    ConsecutiveBounds(ordinals, start);
  }

  lemma {:induction false} ConsecutiveBounds(ordinals: seq<nat>, start: nat)
    requires ordinals != [] && forall k | 0 <= k < |ordinals| :: ordinals[k] == start + k
    ensures Least(ordinals) == start && Greatest(ordinals) == start + |ordinals| - 1
  {
    assert ordinals[0] in ordinals && ordinals[|ordinals| - 1] in ordinals;
  }

  /** A run of targets is the whole range from its first place to its last. */
  lemma {:induction false} RunHasRange(streams: seq<EditionStream>, n: nat, lo: nat, hi: nat)
    requires IsIndexed(streams) && n < |streams| && lo < hi <= |streams[n].passages|
    ensures var targets := streams[n].passages[lo..hi]; var c := TargetPlaces(streams);
            IsKnown(targets, c) && RangeOf(targets, c) == Some(TargetRange(streams[n].book, lo + 1, hi))
  {
    RunIsKnown(streams, n, lo, hi);
    ConsecutiveRange(streams[n].passages[lo..hi], TargetPlaces(streams), streams[n].book, lo + 1);
  }

  /** The place lies in the range of the targets. */
  predicate InRange(range: Option<TargetRange>, book: string, ordinal: int) {
    range.Some? && range.value.book == book && range.value.start <= ordinal <= range.value.end
  }

  lemma {:induction false} SliceHoldsItsRange(streams: seq<EditionStream>, n: nat, lo: nat, hi: nat, m: nat, i: nat)
    requires IsIndexed(streams) && n < |streams| && lo <= hi <= |streams[n].passages|
    requires m < |streams| && i < |streams[m].passages|
    ensures streams[m].passages[i] in streams[n].passages[lo..hi] <==> m == n && lo <= i < hi
  {
    var targets := streams[n].passages[lo..hi];
    if streams[m].passages[i] in targets {
      var k :| 0 <= k < |targets| && targets[k] == streams[m].passages[i];
      assert streams[n].passages[lo + k] == streams[m].passages[i];
    }
    if m == n && lo <= i < hi {
      assert targets[i - lo] == streams[m].passages[i];
    }
  }

  /** Of a run, exactly the passages between its ends are targets. */
  lemma {:induction false} RunHoldsItsRange(targets: seq<Id>, streams: seq<EditionStream>, m: nat, i: nat)
    requires IsIndexed(streams) && IsRun(targets, streams) && m < |streams| && i < |streams[m].passages|
    ensures IsKnown(targets, TargetPlaces(streams))
    ensures streams[m].passages[i] in targets <==>
            InRange(RangeOf(targets, TargetPlaces(streams)), streams[m].book, i + 1)
  {
    if targets != [] {
      var n, lo, hi := RunSlice(targets, streams);
      RunIsKnown(streams, n, lo, hi);
      SliceHoldsItsRange(streams, n, lo, hi, m, i);
      RunHasRange(streams, n, lo, hi);
    }
  }

  lemma {:induction false} RunSlice(targets: seq<Id>, streams: seq<EditionStream>) returns (n: nat, lo: nat, hi: nat)
    requires IsRun(targets, streams) && targets != []
    ensures n < |streams| && lo <= hi <= |streams[n].passages| && targets == streams[n].passages[lo..hi]
  {
    n, lo, hi :| n < |streams| && lo <= hi <= |streams[n].passages| && targets == streams[n].passages[lo..hi];
  }

  lemma {:induction false} RangeStartsAtPassage(targets: seq<Id>, streams: seq<EditionStream>) returns (m: nat)
    requires IsIndexed(streams) && IsRun(targets, streams) && targets != []
    ensures IsKnown(targets, TargetPlaces(streams)) && m < |streams|
    ensures var range := RangeOf(targets, TargetPlaces(streams)).value;
            range.book == streams[m].book && 1 <= range.start <= range.end <= |streams[m].passages|
  {
    var n, lo, hi := RunSlice(targets, streams);
    RunHasRange(streams, n, lo, hi);
    m := n;
  }

  predicate RangesMeet(a: Option<TargetRange>, b: Option<TargetRange>) {
    && a.Some? && b.Some? && a.value.book == b.value.book
    && a.value.start <= b.value.end && b.value.start <= a.value.end
  }

  /** Some book is the range's, and has all its places. */
  ghost predicate LiesIn(range: TargetRange, streams: seq<EditionStream>) {
    exists m :: 0 <= m < |streams| && range.book == streams[m].book
      && 1 <= range.start <= range.end <= |streams[m].passages|
  }

  /** Exactly the passages in the range are targets. */
  ghost predicate Fills(targets: seq<Id>, range: TargetRange, streams: seq<EditionStream>) {
    forall m, i :: 0 <= m < |streams| && 0 <= i < |streams[m].passages| ==>
      (streams[m].passages[i] in targets <==> InRange(Some(range), streams[m].book, i + 1))
  }

  lemma {:induction false} RunFillsItsRange(targets: seq<Id>, streams: seq<EditionStream>)
    requires IsIndexed(streams) && IsRun(targets, streams) && targets != [] && IsKnown(targets, TargetPlaces(streams))
    ensures var range := RangeOf(targets, TargetPlaces(streams)).value;
            Fills(targets, range, streams) && LiesIn(range, streams)
  {
    var m := RangeStartsAtPassage(targets, streams);
    var range := RangeOf(targets, TargetPlaces(streams));
    forall m, i | 0 <= m < |streams| && 0 <= i < |streams[m].passages|
      ensures streams[m].passages[i] in targets <==> InRange(range, streams[m].book, i + 1)
    {
      RunHoldsItsRange(targets, streams, m, i);
    }
  }

  /** The later start of two meeting ranges is a passage of both. */
  lemma {:induction false} MeetingRangesShare(a: seq<Id>, s: TargetRange, b: seq<Id>, t: TargetRange,
                                              streams: seq<EditionStream>)
    returns (id: Id)
    requires Fills(a, s, streams) && LiesIn(s, streams) && Fills(b, t, streams) && t.start <= t.end
    requires RangesMeet(Some(s), Some(t))
    ensures id in a && id in b
  {
    var m :| 0 <= m < |streams| && s.book == streams[m].book && 1 <= s.start <= s.end <= |streams[m].passages|;
    var start := if s.start <= t.start then t.start else s.start;
    id := streams[m].passages[start - 1];
  }

  lemma {:induction false} MeetingRunsShare(a: seq<Id>, b: seq<Id>, streams: seq<EditionStream>) returns (id: Id)
    requires IsIndexed(streams) && IsRun(a, streams) && IsRun(b, streams) && a != [] && b != []
    requires IsKnown(a, TargetPlaces(streams)) && IsKnown(b, TargetPlaces(streams))
    requires RangesMeet(RangeOf(a, TargetPlaces(streams)), RangeOf(b, TargetPlaces(streams)))
    ensures id in a && id in b
  {
    RunFillsItsRange(a, streams);
    RunFillsItsRange(b, streams);
    id := MeetingRangesShare(a, RangeOf(a, TargetPlaces(streams)).value, b, RangeOf(b, TargetPlaces(streams)).value,
      streams);
  }

  lemma {:induction false} SharingRunsMeet(a: seq<Id>, b: seq<Id>, streams: seq<EditionStream>, id: Id)
    requires IsIndexed(streams) && IsRun(a, streams) && IsRun(b, streams) && id in a && id in b
    requires IsKnown(a, TargetPlaces(streams)) && IsKnown(b, TargetPlaces(streams))
    ensures RangesMeet(RangeOf(a, TargetPlaces(streams)), RangeOf(b, TargetPlaces(streams)))
  {
    var m, i := PassageOfRun(a, streams, id);
    RunHoldsItsRange(a, streams, m, i);
    RunHoldsItsRange(b, streams, m, i);
  }

  /** Two runs have intersecting ranges exactly when they have a passage in common. */
  lemma {:induction false} RangesMeetExactlyWhenShared(a: seq<Id>, b: seq<Id>, streams: seq<EditionStream>)
    requires IsIndexed(streams) && IsRun(a, streams) && IsRun(b, streams)
    ensures IsKnown(a, TargetPlaces(streams)) && IsKnown(b, TargetPlaces(streams))
    ensures RangesMeet(RangeOf(a, TargetPlaces(streams)), RangeOf(b, TargetPlaces(streams))) <==>
              exists id :: id in a && id in b
  {
    RunTargetsAreKnown(a, streams);
    RunTargetsAreKnown(b, streams);
    if RangesMeet(RangeOf(a, TargetPlaces(streams)), RangeOf(b, TargetPlaces(streams))) {
      var id := MeetingRunsShare(a, b, streams);
    }
    if id :| id in a && id in b {
      SharingRunsMeet(a, b, streams, id);
    }
  }

  lemma {:induction false} RunTargetsAreKnown(targets: seq<Id>, streams: seq<EditionStream>)
    requires IsIndexed(streams) && IsRun(targets, streams)
    ensures IsKnown(targets, TargetPlaces(streams))
  {
    if targets != [] {
      var n, lo, hi := RunSlice(targets, streams);
      RunIsKnown(streams, n, lo, hi);
    }
  }

  lemma {:induction false} PassageOfRun(targets: seq<Id>, streams: seq<EditionStream>, id: Id) returns (m: nat, i: nat)
    requires IsRun(targets, streams) && id in targets
    ensures m < |streams| && i < |streams[m].passages| && streams[m].passages[i] == id
  {
    var n, lo, hi := RunSlice(targets, streams);
    var k :| 0 <= k < |targets| && targets[k] == id;
    m, i := n, lo + k;
  }

  /** The relationship owns a parsed endpoint with the targets. */
  ghost predicate Reaches(relationships: seq<MappedRelationship>, x: Id, targets: seq<Id>) {
    exists k :: 0 <= k < |relationships| && relationships[k].relationshipId == x
      && (EndpointReaches(relationships[k].first, targets) || EndpointReaches(relationships[k].second, targets))
  }

  predicate EndpointReaches(e: MappedEndpoint, targets: seq<Id>) { e.endpoint.Parsed? && e.targets == targets }

  /** Both relationships map an endpoint to a common passage. */
  ghost predicate ShareTarget(relationships: seq<MappedRelationship>, x: Id, y: Id) {
    exists a, b, id :: Reaches(relationships, x, a) && Reaches(relationships, y, b) && id in a && id in b
  }

  predicate HasRange(e: MappedEndpoint, c: Places, range: TargetRange) {
    e.endpoint.Parsed? && IsKnown(e.targets, c) && RangeOf(e.targets, c) == Some(range)
  }

  predicate OwnsRange(r: MappedRelationship, c: Places, x: Id, range: TargetRange) {
    r.relationshipId == x && (HasRange(r.first, c, range) || HasRange(r.second, c, range))
  }

  lemma {:induction false} RelationshipIntervals(r: MappedRelationship, c: Places, digest: string -> nat, i: Interval)
    requires IsBuildable(r, c, digest)
    ensures i in Intervals(InputOf(r, c, digest), TargetOverlap) <==>
              OwnsRange(r, c, i.relationshipId, TargetRange(i.book, i.start, i.end))
  {
  }

  lemma {:induction false} TargetIntervalOwned(inputs: seq<Input>, relationships: seq<MappedRelationship>, c: Places,
                                               digest: string -> nat, i: Interval)
    returns (k: nat)
    requires AreInputs(inputs, relationships, c, digest) && i in AllIntervals(Elements(inputs), TargetOverlap)
    ensures k < |relationships| && OwnsRange(relationships[k], c, i.relationshipId, TargetRange(i.book, i.start, i.end))
  {
    var r :| r in Elements(inputs) && i in Intervals(r, TargetOverlap);
    k :| 0 <= k < |inputs| && inputs[k] == r;
    RelationshipIntervals(relationships[k], c, digest, i);
  }

  lemma {:induction false} OwnedTargetInterval(inputs: seq<Input>, relationships: seq<MappedRelationship>, c: Places,
                                               digest: string -> nat, k: nat, i: Interval)
    requires AreInputs(inputs, relationships, c, digest) && k < |relationships|
    requires OwnsRange(relationships[k], c, i.relationshipId, TargetRange(i.book, i.start, i.end))
    ensures i in AllIntervals(Elements(inputs), TargetOverlap)
  {
    RelationshipIntervals(relationships[k], c, digest, i);
    assert inputs[k] in Elements(inputs);
  }

  /** The targets behind an owned range. */
  lemma {:induction false} RangeHasTargets(relationships: seq<MappedRelationship>, streams: seq<EditionStream>, k: nat,
                                           x: Id, range: TargetRange)
    returns (targets: seq<Id>)
    requires k < |relationships| && AreRuns(relationships, streams)
    requires OwnsRange(relationships[k], TargetPlaces(streams), x, range)
    ensures Reaches(relationships, x, targets) && IsRun(targets, streams) && IsKnown(targets, TargetPlaces(streams))
    ensures RangeOf(targets, TargetPlaces(streams)) == Some(range)
  {
    var r := relationships[k];
    targets := if HasRange(r.first, TargetPlaces(streams), range) then r.first.targets else r.second.targets;
  }

  lemma {:induction false} TargetsHaveRange(relationships: seq<MappedRelationship>, c: Places, x: Id, targets: seq<Id>)
    returns (k: nat)
    requires Reaches(relationships, x, targets) && IsKnown(targets, c) && RangeOf(targets, c).Some?
    ensures k < |relationships| && OwnsRange(relationships[k], c, x, RangeOf(targets, c).value)
  {
    k :| 0 <= k < |relationships| && relationships[k].relationshipId == x
      && (EndpointReaches(relationships[k].first, targets) || EndpointReaches(relationships[k].second, targets));
  }

  lemma {:induction false} ReachedIsRun(relationships: seq<MappedRelationship>, streams: seq<EditionStream>, x: Id,
                                        targets: seq<Id>)
    requires AreRuns(relationships, streams) && Reaches(relationships, x, targets)
    ensures IsRun(targets, streams)
  {
  }

  lemma {:induction false} OverlapIsSharing(inputs: seq<Input>, relationships: seq<MappedRelationship>,
                                            streams: seq<EditionStream>, digest: string -> nat, a: Interval,
                                            b: Interval)
    requires AreInputs(inputs, relationships, TargetPlaces(streams), digest)
    requires IsIndexed(streams) && AreRuns(relationships, streams) && Intersect(a, b)
    requires a in AllIntervals(Elements(inputs), TargetOverlap) && b in AllIntervals(Elements(inputs), TargetOverlap)
    ensures ShareTarget(relationships, a.relationshipId, b.relationshipId)
  {
    var k := TargetIntervalOwned(inputs, relationships, TargetPlaces(streams), digest, a);
    var l := TargetIntervalOwned(inputs, relationships, TargetPlaces(streams), digest, b);
    OwnersShare(relationships, streams, k, a, l, b);
  }

  lemma {:induction false} OwnersShare(relationships: seq<MappedRelationship>, streams: seq<EditionStream>, k: nat,
                                       a: Interval, l: nat, b: Interval)
    requires IsIndexed(streams) && AreRuns(relationships, streams) && Intersect(a, b)
    requires k < |relationships| && l < |relationships|
    requires OwnsRange(relationships[k], TargetPlaces(streams), a.relationshipId, TargetRange(a.book, a.start, a.end))
    requires OwnsRange(relationships[l], TargetPlaces(streams), b.relationshipId, TargetRange(b.book, b.start, b.end))
    ensures ShareTarget(relationships, a.relationshipId, b.relationshipId)
  {
    var s := RangeHasTargets(relationships, streams, k, a.relationshipId, TargetRange(a.book, a.start, a.end));
    var t := RangeHasTargets(relationships, streams, l, b.relationshipId, TargetRange(b.book, b.start, b.end));
    var id := MeetingTargetsShare(s, t, streams);
    assert Reaches(relationships, a.relationshipId, s) && Reaches(relationships, b.relationshipId, t);
  }

  lemma {:induction false} MeetingTargetsShare(s: seq<Id>, t: seq<Id>, streams: seq<EditionStream>) returns (id: Id)
    requires IsIndexed(streams) && IsRun(s, streams) && IsRun(t, streams)
    requires IsKnown(s, TargetPlaces(streams)) && IsKnown(t, TargetPlaces(streams))
    requires RangesMeet(RangeOf(s, TargetPlaces(streams)), RangeOf(t, TargetPlaces(streams)))
    ensures id in s && id in t
  {
    RangesMeetExactlyWhenShared(s, t, streams);
    id :| id in s && id in t;
  }

  lemma {:induction false} SharingIsOverlap(inputs: seq<Input>, relationships: seq<MappedRelationship>,
                                            streams: seq<EditionStream>, digest: string -> nat, x: Id, y: Id)
    requires AreInputs(inputs, relationships, TargetPlaces(streams), digest)
    requires IsIndexed(streams) && AreRuns(relationships, streams) && ShareTarget(relationships, x, y)
    ensures Overlap(AllIntervals(Elements(inputs), TargetOverlap), x, y)
  {
    var k, a, l, b := SharersOwn(relationships, streams, x, y);
    var c := TargetPlaces(streams);
    var i, j := Interval(a.book, a.start, a.end, x), Interval(b.book, b.start, b.end, y);
    assert TargetRange(i.book, i.start, i.end) == a && TargetRange(j.book, j.start, j.end) == b;
    OwnedTargetInterval(inputs, relationships, c, digest, k, i);
    OwnedTargetInterval(inputs, relationships, c, digest, l, j);
    assert Intersect(i, j);
  }

  lemma {:induction false} SharersOwn(relationships: seq<MappedRelationship>, streams: seq<EditionStream>, x: Id, y: Id)
    returns (k: nat, a: TargetRange, l: nat, b: TargetRange)
    requires IsIndexed(streams) && AreRuns(relationships, streams) && ShareTarget(relationships, x, y)
    ensures k < |relationships| && OwnsRange(relationships[k], TargetPlaces(streams), x, a)
    ensures l < |relationships| && OwnsRange(relationships[l], TargetPlaces(streams), y, b)
    ensures RangesMeet(Some(a), Some(b))
  {
    var c := TargetPlaces(streams);
    var s, t, id :| Reaches(relationships, x, s) && Reaches(relationships, y, t) && id in s && id in t;
    ReachedIsRun(relationships, streams, x, s);
    ReachedIsRun(relationships, streams, y, t);
    RangesMeetExactlyWhenShared(s, t, streams);
    k := TargetsHaveRange(relationships, c, x, s);
    l := TargetsHaveRange(relationships, c, y, t);
    a, b := RangeOf(s, c).value, RangeOf(t, c).value;
  }

  /** The target view holds together exactly relationships that map to a common passage: places, not packed
      labels, are compared, so no omitted verse can pretend to be shared. */
  lemma {:induction false} TargetViewIsSharing(inputs: seq<Input>, relationships: seq<MappedRelationship>,
                                               streams: seq<EditionStream>, digest: string -> nat, x: Id, y: Id)
    requires AreInputs(inputs, relationships, TargetPlaces(streams), digest)
    requires IsIndexed(streams) && AreRuns(relationships, streams)
    ensures Related(Elements(inputs), TargetOverlap, x, y) <==> ShareTarget(relationships, x, y)
  {
    var intervals := AllIntervals(Elements(inputs), TargetOverlap);
    if Overlap(intervals, x, y) {
      var a, b :| a in intervals && b in intervals && a.relationshipId == x && b.relationshipId == y && Intersect(a, b);
      OverlapIsSharing(inputs, relationships, streams, digest, a, b);
    }
    if ShareTarget(relationships, x, y) {
      SharingIsOverlap(inputs, relationships, streams, digest, x, y);
    }
  }
}
