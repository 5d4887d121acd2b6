/** How src/echoes/benchmarks/pipeline.py hands parsed reference spans to the interval sweep: chapter and
    verse are packed into one ordinal, and the sweep's groups are read back as span intersections. */
module LeakageInputs {
  import opened Wrappers
  import opened Ordering
  import opened References
  import opened Text
  import opened LeakageSweep

  function PackedOrdinal(p: Point): nat {
    p.chapter * 1000 + p.verse
  }

  /** Below verse 1000 the packed ordinal is order-isomorphic to (chapter, verse). */
  lemma {:induction false} PackingIsOrderIsomorphic(p: Point, q: Point)
    requires p.verse < 1000 && q.verse < 1000
    ensures PackedOrdinal(p) < PackedOrdinal(q) <==> Precedes(p, q)
    ensures PackedOrdinal(p) == PackedOrdinal(q) <==> p.chapter == q.chapter && p.verse == q.verse
  {
  }

  /** One endpoint of a relationship: a parsed span, or a reference that did not parse. */
  datatype Endpoint = Parsed(span: Span) | Unresolved(reference: string)

  datatype Linked = Linked(relationshipId: Id, first: Endpoint, second: Endpoint)

  const UNRESOLVED_BOOK := "UNRESOLVED"

  /** The interval of an endpoint; `digest` is the positive eight-byte ordinal of an unparsed reference. */
  function EndpointInterval(endpoint: Endpoint, relationshipId: Id, digest: string -> nat): Interval {
    match endpoint
    case Parsed(span) =>
      Interval(span.start.canonical, PackedOrdinal(span.start), PackedOrdinal(span.end), relationshipId)
    case Unresolved(reference) =>
      Interval(UNRESOLVED_BOOK, digest(reference) + 1, digest(reference) + 1, relationshipId)
  }

  /** The dataclass check that the ordinals form a positive ordered interval. */
  predicate IsOrderedInterval(i: Interval) {
    1 <= i.start <= i.end
  }

  /** No parsed span whose verses stay below 1000 trips the ordered-interval check. */
  lemma {:induction false} ParsedSpanPacksInOrder(registry: Registry, reference: string, scheme: string,
                                                  bounds: Option<VerseBounds>, relationshipId: Id,
                                                  digest: string -> nat)
    requires Parse(registry, reference, scheme, bounds).Success?
    requires var span := Parse(registry, reference, scheme, bounds).value;
             span.start.verse < 1000 && span.end.verse < 1000
    ensures var span := Parse(registry, reference, scheme, bounds).value;
            IsOrderedInterval(EndpointInterval(Parsed(span), relationshipId, digest))
  {
    ParsedShape(registry, reference, scheme, bounds);
    var span := Parse(registry, reference, scheme, bounds).value;
    PackingIsOrderIsomorphic(span.start, span.end);
  }

  /** The parser does not bound verses, so a parsed span can trip the check: exactly when it crosses chapters
      and its first verse exceeds its last by more than a thousand per chapter crossed. */
  lemma {:induction false} ParsedSpanTripsExactlyWhen(registry: Registry, reference: string, scheme: string,
                                                      bounds: Option<VerseBounds>, relationshipId: Id,
                                                      digest: string -> nat)
    requires Parse(registry, reference, scheme, bounds).Success?
    ensures var span := Parse(registry, reference, scheme, bounds).value;
            !IsOrderedInterval(EndpointInterval(Parsed(span), relationshipId, digest)) <==>
              && span.isRange && span.start.chapter < span.end.chapter
              && span.start.verse > span.end.verse + 1000 * (span.end.chapter - span.start.chapter)
  {
    ParsedShape(registry, reference, scheme, bounds);
  }

  /** Such ranges do come out of the parser: every one of them, printed, is accepted and trips the check. */
  lemma {:induction false} BackwardRangesAreAccepted(registry: Registry, reference: string, start: Point, end: Point,
                                                     scheme: string, relationshipId: Id, digest: string -> nat)
    requires reference == PrintPoint(start) + "-" + PrintPoint(end)
    requires Governed(registry, start) && Governed(registry, end) && scheme != "" && start.canonical == end.canonical
    requires start.chapter < end.chapter && start.verse > end.verse + 1000 * (end.chapter - start.chapter)
    ensures var parsed := Parse(registry, reference, scheme, None);
            && parsed.Success? && parsed.value.start == start && parsed.value.end == end
            && !IsOrderedInterval(EndpointInterval(Parsed(parsed.value), relationshipId, digest))
  {
    PrintedRangeParses(registry, start, end, scheme, None);
  }

  lemma {:induction false} SmallNumerals()
    ensures PrintNat(1) == "1" && PrintNat(2) == "2" && PrintNat(1500) == "1500"
  {
    assert PrintNat(15) == "15";
    assert PrintNat(150) == "150";
  }

  const EXAMPLE: string := "Gen.1.1500-Gen.2.1"

  function ExampleStart(): Point { Point("Gen", "GEN", 1, 1500) }

  function ExampleEnd(): Point { Point("Gen", "GEN", 2, 1) }

  lemma {:induction false} ExampleIsPrinted()
    ensures EXAMPLE == PrintPoint(ExampleStart()) + "-" + PrintPoint(ExampleEnd())
  {
    SmallNumerals();
  }

  lemma {:induction false} ExampleIsGoverned(registry: Registry)
    requires "Gen" in registry && registry["Gen"] == Book("GEN", 50)
    ensures Governed(registry, ExampleStart()) && Governed(registry, ExampleEnd())
  {
  }

  /** A concrete accepted range whose packed ordinals run backward: verse 1500 of one chapter to verse 1 of
      the next. */
  lemma {:induction false} LargeVersePacksBackward(registry: Registry, relationshipId: Id, digest: string -> nat)
    requires "Gen" in registry && registry["Gen"] == Book("GEN", 50)
    ensures var parsed := Parse(registry, EXAMPLE, "s", None);
            && parsed.Success? && parsed.value.start == ExampleStart() && parsed.value.end == ExampleEnd()
            && !IsOrderedInterval(EndpointInterval(Parsed(parsed.value), relationshipId, digest))
  {
    ExampleIsPrinted();
    ExampleIsGoverned(registry);
    BackwardRangesAreAccepted(registry, EXAMPLE, ExampleStart(), ExampleEnd(), "s", relationshipId, digest);
  }

  // ----- The sweep in terms of references -----

  /** The reference spans intersect: neither ends before the other starts, in chapter-and-verse order. */
  predicate SpansIntersect(a: Span, b: Span) {
    a.start.canonical == b.start.canonical && !Precedes(a.end, b.start) && !Precedes(b.end, a.start)
  }

  predicate EndpointsMeet(a: Endpoint, b: Endpoint, digest: string -> nat) {
    match (a, b)
    case (Parsed(s), Parsed(t)) => SpansIntersect(s, t)
    case (Unresolved(r), Unresolved(u)) => digest(r) == digest(u)
    case _ => false
  }

  /** What the pipeline's parsed spans satisfy, when verses stay below 1000. */
  predicate IsPackable(endpoint: Endpoint) {
    endpoint.Parsed? ==>
      && endpoint.span.start.canonical != UNRESOLVED_BOOK
      && endpoint.span.start.chapter >= 1
      && endpoint.span.start.verse < 1000 && endpoint.span.end.verse < 1000
      && !Precedes(endpoint.span.end, endpoint.span.start)
  }

  function SourceIntervals(linked: seq<Linked>, digest: string -> nat): seq<Interval> {
    if linked == [] then []
    else
      [EndpointInterval(linked[0].first, linked[0].relationshipId, digest),
       EndpointInterval(linked[0].second, linked[0].relationshipId, digest)]
      + SourceIntervals(linked[1..], digest)
  }

  ghost predicate Owns(linked: seq<Linked>, x: Id, e: Endpoint) {
    exists k :: 0 <= k < |linked| && linked[k].relationshipId == x && (linked[k].first == e || linked[k].second == e)
  }

  ghost predicate OwnsInterval(linked: seq<Linked>, digest: string -> nat, i: Interval) {
    exists e :: Owns(linked, i.relationshipId, e) && i == EndpointInterval(e, i.relationshipId, digest)
  }

  lemma {:induction false} OwnsCons(head: Linked, rest: seq<Linked>, x: Id, e: Endpoint)
    ensures Owns([head] + rest, x, e) <==>
              (head.relationshipId == x && (head.first == e || head.second == e)) || Owns(rest, x, e)
  {
    var linked := [head] + rest;
    if head.relationshipId == x && (head.first == e || head.second == e) {
      assert linked[0] == head;
    }
    if Owns(rest, x, e) {
      var k :| 0 <= k < |rest| && rest[k].relationshipId == x && (rest[k].first == e || rest[k].second == e);
      assert linked[k + 1] == rest[k];
    }
  }

  lemma {:induction false} OwnsIntervalCons(head: Linked, rest: seq<Linked>, digest: string -> nat, i: Interval)
    ensures OwnsInterval([head] + rest, digest, i) <==>
              i == EndpointInterval(head.first, head.relationshipId, digest)
              || i == EndpointInterval(head.second, head.relationshipId, digest) || OwnsInterval(rest, digest, i)
  {
    forall e ensures Owns([head] + rest, i.relationshipId, e) <==>
      (head.relationshipId == i.relationshipId && (head.first == e || head.second == e))
        || Owns(rest, i.relationshipId, e)
    {
      OwnsCons(head, rest, i.relationshipId, e);
    }
  }

  lemma {:induction false} SourceIntervalsContents(linked: seq<Linked>, digest: string -> nat, i: Interval)
    ensures i in Elements(SourceIntervals(linked, digest)) <==> OwnsInterval(linked, digest, i)
  {
    if linked != [] {
      SourceIntervalsContents(linked[1..], digest, i);
      OwnsIntervalCons(linked[0], linked[1..], digest, i);
      assert linked == [linked[0]] + linked[1..];
    }
  }

  lemma {:induction false} IntervalsMeetLikeEndpoints(a: Endpoint, b: Endpoint, x: Id, y: Id, digest: string -> nat)
    requires IsPackable(a) && IsPackable(b)
    ensures Intersect(EndpointInterval(a, x, digest), EndpointInterval(b, y, digest)) <==> EndpointsMeet(a, b, digest)
  {
    if a.Parsed? && b.Parsed? {
      PackingIsOrderIsomorphic(a.span.end, b.span.start);
      PackingIsOrderIsomorphic(b.span.end, a.span.start);
    }
  }

  lemma {:induction false} PackedIntervalIsOrdered(e: Endpoint, x: Id, digest: string -> nat)
    requires IsPackable(e)
    ensures IsOrderedInterval(EndpointInterval(e, x, digest))
  {
    if e.Parsed? {
      PackingIsOrderIsomorphic(e.span.end, e.span.start);
    }
  }

  /** Two relationships own endpoints that meet. */
  ghost predicate ReferencesMeet(linked: seq<Linked>, x: Id, y: Id, digest: string -> nat) {
    exists e, f :: Owns(linked, x, e) && Owns(linked, y, f) && EndpointsMeet(e, f, digest)
  }

  lemma {:induction false} OverlapIsMeeting(linked: seq<Linked>, x: Id, y: Id, digest: string -> nat)
    requires forall k :: 0 <= k < |linked| ==> IsPackable(linked[k].first) && IsPackable(linked[k].second)
    ensures Overlap(Elements(SourceIntervals(linked, digest)), x, y) <==> ReferencesMeet(linked, x, y, digest)
  {
    var intervals := Elements(SourceIntervals(linked, digest));
    if Overlap(intervals, x, y) {
      var a, b :| a in intervals && b in intervals && a.relationshipId == x && b.relationshipId == y && Intersect(a, b);
      SourceIntervalsContents(linked, digest, a);
      SourceIntervalsContents(linked, digest, b);
      var e :| Owns(linked, x, e) && a == EndpointInterval(e, x, digest);
      var f :| Owns(linked, y, f) && b == EndpointInterval(f, y, digest);
      IntervalsMeetLikeEndpoints(e, f, x, y, digest);
    }
    if ReferencesMeet(linked, x, y, digest) {
      var e, f :| Owns(linked, x, e) && Owns(linked, y, f) && EndpointsMeet(e, f, digest);
      var a, b := EndpointInterval(e, x, digest), EndpointInterval(f, y, digest);
      assert OwnsInterval(linked, digest, a) && OwnsInterval(linked, digest, b);
      SourceIntervalsContents(linked, digest, a);
      SourceIntervalsContents(linked, digest, b);
      IntervalsMeetLikeEndpoints(e, f, x, y, digest);
    }
  }

  /** End to end: the sweep over packed source intervals puts two relationships in one group if and only if
      their reference spans intersect in chapter-and-verse order. */
  method SourceOverlapGroups(linked: seq<Linked>, digest: string -> nat) returns (groups: seq<OverlapGroup>)
    requires forall k :: 0 <= k < |linked| ==> IsPackable(linked[k].first) && IsPackable(linked[k].second)
    ensures forall x, y :: x != y ==> (ShareGroup(groups, x, y) <==> ReferencesMeet(linked, x, y, digest))
  {
    var intervals := SourceIntervals(linked, digest);
    forall i | i in Elements(intervals) ensures i.start <= i.end {
      SourceIntervalsContents(linked, digest, i);
      var e :| Owns(linked, i.relationshipId, e) && i == EndpointInterval(e, i.relationshipId, digest);
      PackedIntervalIsOrdered(e, i.relationshipId, digest);
    }
    assert forall k :: 0 <= k < |intervals| ==> intervals[k] in Elements(intervals);
    groups := AtomicOverlapGroups(intervals);
    forall x, y | x != y ensures ShareGroup(groups, x, y) <==> ReferencesMeet(linked, x, y, digest) {
      SharedGroupIsOverlap(groups, Elements(intervals), x, y);
      OverlapIsMeeting(linked, x, y, digest);
    }
  }
}
