/** The passage index and the mapping decision of src/echoes/benchmarks/mapping.py. */
module Mapping {
  import opened Wrappers
  import opened Ordering
  import opened References
  import opened Coordinates

  datatype Profile = EditionComplete | CriticalCore

  datatype Corpus = Hebrew | Greek

  /** (corpus, profile, book); the analysis reading is a function of the corpus. */
  type Stream = (Corpus, Profile, string)

  datatype Target = Target(
    passageId: Id,
    stream: Stream,
    chapter: nat,
    verse: nat,
    reference: string,
    disputed: bool,
    referenceGap: bool)

  function At(t: Target): Coordinate { (t.chapter, t.verse) }

  function CoordinatesOf(s: seq<Target>): seq<Coordinate> {
    seq(|s|, k requires 0 <= k < |s| => At(s[k]))
  }

  function ReferencesOf(s: seq<Target>): seq<string> {
    seq(|s|, k requires 0 <= k < |s| => s[k].reference)
  }

  // ----- Binary search -----

  ghost predicate Sorted(s: seq<Coordinate>) {
    forall i, j :: 0 <= i < j < |s| ==> !Before(s[j], s[i])
  }

  /** `bisect_left` */
  method BisectLeft(s: seq<Coordinate>, x: Coordinate) returns (r: nat)
    requires Sorted(s)
    ensures r <= |s|
    ensures forall k :: 0 <= k < |s| ==> (k < r <==> Before(s[k], x))
  {
    var lo, hi := 0, |s|;
    while lo < hi
      invariant 0 <= lo <= hi <= |s|
      invariant forall k :: 0 <= k < lo ==> Before(s[k], x)
      invariant forall k :: hi <= k < |s| ==> !Before(s[k], x)
    {
      var mid := (lo + hi) / 2;
      if Before(s[mid], x) { lo := mid + 1; } else { hi := mid; }
    }
    r := lo;
  }

  /** `bisect_right` */
  method BisectRight(s: seq<Coordinate>, x: Coordinate) returns (r: nat)
    requires Sorted(s)
    ensures r <= |s|
    ensures forall k :: 0 <= k < |s| ==> (k < r <==> !Before(x, s[k]))
  {
    var lo, hi := 0, |s|;
    while lo < hi
      invariant 0 <= lo <= hi <= |s|
      invariant forall k :: 0 <= k < lo ==> !Before(x, s[k])
      invariant forall k :: hi <= k < |s| ==> Before(x, s[k])
    {
      var mid := (lo + hi) / 2;
      if Before(x, s[mid]) { hi := mid; } else { lo := mid + 1; }
    }
    r := lo;
  }

  // ----- The index -----

  /** The naive form of a span: filter the stream in order. */
  function SpanFilter(s: seq<Target>, start: Coordinate, end: Coordinate): seq<Target> {
    if s == [] then []
    else (if Between(At(s[0]), start, end) then [s[0]] else []) + SpanFilter(s[1..], start, end)
  }

  /** A run of targets all inside the span filters to itself, one all outside to nothing. */
  lemma {:induction false} FilterOfInside(s: seq<Target>, start: Coordinate, end: Coordinate)
    requires forall k :: 0 <= k < |s| ==> Between(At(s[k]), start, end)
    ensures SpanFilter(s, start, end) == s
  {
    if s != [] {
      FilterOfInside(s[1..], start, end);
      assert s == [s[0]] + s[1..];
    }
  }

  lemma {:induction false} FilterOfOutside(s: seq<Target>, start: Coordinate, end: Coordinate)
    requires forall k :: 0 <= k < |s| ==> !Between(At(s[k]), start, end)
    ensures SpanFilter(s, start, end) == []
  {
    if s != [] {
      FilterOfOutside(s[1..], start, end);
    }
  }

  lemma {:induction false} FilterDistributes(a: seq<Target>, b: seq<Target>, start: Coordinate, end: Coordinate)
    ensures SpanFilter(a + b, start, end) == SpanFilter(a, start, end) + SpanFilter(b, start, end)
  {
    if a == [] {
      assert a + b == b;
    } else {
      assert (a + b)[1..] == a[1..] + b;
      FilterDistributes(a[1..], b, start, end);
    }
  }

  lemma {:induction false} FilterOfParts(before: seq<Target>, inside: seq<Target>, after: seq<Target>,
                                         start: Coordinate, end: Coordinate)
    requires forall k :: 0 <= k < |before| ==> !Between(At(before[k]), start, end)
    requires forall k :: 0 <= k < |inside| ==> Between(At(inside[k]), start, end)
    requires forall k :: 0 <= k < |after| ==> !Between(At(after[k]), start, end)
    ensures SpanFilter(before + inside + after, start, end) == inside
  {
    FilterDistributes(before + inside, after, start, end);
    FilterDistributes(before, inside, start, end);
    FilterOfOutside(before, start, end);
    FilterOfInside(inside, start, end);
    FilterOfOutside(after, start, end);
  }

  /** Where both searches cut, a stream falls into what lies before the span, inside it and after it. */
  lemma {:induction false} SlicesAreSorted(s: seq<Target>, start: Coordinate, end: Coordinate, left: nat, right: nat)
    requires left <= right <= |s|
    requires forall k :: 0 <= k < |s| ==> (k < left <==> Before(At(s[k]), start))
    requires forall k :: 0 <= k < |s| ==> (k < right <==> !Before(end, At(s[k])))
    ensures forall k :: 0 <= k < left ==> !Between(At(s[..left][k]), start, end)
    ensures forall k :: 0 <= k < right - left ==> Between(At(s[left..right][k]), start, end)
    ensures forall k :: 0 <= k < |s| - right ==> !Between(At(s[right..][k]), start, end)
  {
  }

  lemma {:induction false} SliceIsFilter(s: seq<Target>, start: Coordinate, end: Coordinate, left: nat, right: nat)
    requires left <= |s| && right <= |s|
    requires forall k :: 0 <= k < |s| ==> (k < left <==> Before(At(s[k]), start))
    requires forall k :: 0 <= k < |s| ==> (k < right <==> !Before(end, At(s[k])))
    ensures (if left <= right then s[left..right] else []) == SpanFilter(s, start, end)
  {
    if left <= right {
      SlicesAreSorted(s, start, end, left, right);
      FilterOfParts(s[..left], s[left..right], s[right..], start, end);
      assert s[..left] + s[left..right] + s[right..] == s;
    } else {
      FilterOfOutside(s, start, end);
    }
  }

  /** `values.sort(key=(chapter, verse, passage_id))`; keys of one stream differ in their coordinates. */
  function InsertTarget(t: Target, s: seq<Target>): (r: seq<Target>)
    ensures multiset(r) == multiset(s) + multiset{t}
  {
    if s == [] then [t]
    else if Before(At(t), At(s[0])) || (At(t) == At(s[0]) && AtMost(t.passageId, s[0].passageId)) then [t] + s
    else
      assert s == [s[0]] + s[1..];
      [s[0]] + InsertTarget(t, s[1..])
  }

  function SortTargets(s: seq<Target>): (r: seq<Target>)
    ensures multiset(r) == multiset(s)
  {
    if s == [] then []
    else
      assert s == [s[0]] + s[1..];
      InsertTarget(s[0], SortTargets(s[1..]))
  }

  ghost predicate DistinctCoordinates(s: seq<Target>) {
    forall i, j :: 0 <= i < j < |s| ==> At(s[i]) != At(s[j])
  }

  ghost predicate StrictlySorted(s: seq<Target>) {
    forall i, j :: 0 <= i < j < |s| ==> Before(At(s[i]), At(s[j]))
  }

  lemma {:induction false} InsertKeepsSorted(t: Target, s: seq<Target>)
    requires StrictlySorted(s) && forall k :: 0 <= k < |s| ==> At(s[k]) != At(t)
    ensures StrictlySorted(InsertTarget(t, s))
  {
    if s != [] && !Before(At(t), At(s[0])) {
      var head, tail := s[0], s[1..];
      assert forall k :: 0 <= k < |tail| ==> tail[k] == s[k + 1];
      InsertKeepsSorted(t, tail);
      InsertKeepsLeast(head, t, tail);
      assert InsertTarget(t, s) == [head] + InsertTarget(t, tail);
    }
  }

  predicate AllAfter(head: Target, s: seq<Target>) { forall k :: 0 <= k < |s| ==> Before(At(head), At(s[k])) }

  lemma {:induction false} InsertKeepsLeast(head: Target, t: Target, s: seq<Target>)
    requires AllAfter(head, s) && Before(At(head), At(t))
    ensures AllAfter(head, InsertTarget(t, s))
  {
    forall k | 0 <= k < |InsertTarget(t, s)| ensures Before(At(head), At(InsertTarget(t, s)[k])) {
      assert InsertTarget(t, s)[k] in multiset(InsertTarget(t, s));
    }
  }

  lemma {:induction false} SortSorts(s: seq<Target>)
    requires DistinctCoordinates(s)
    ensures StrictlySorted(SortTargets(s))
  {
    if s != [] {
      SortSorts(s[1..]);
      var rest := SortTargets(s[1..]);
      forall k | 0 <= k < |rest| ensures At(rest[k]) != At(s[0]) {
        assert rest[k] in multiset(rest);
        var m :| 0 <= m < |s[1..]| && s[1..][m] == rest[k];
        assert s[m + 1] == rest[k];
      }
      InsertKeepsSorted(s[0], rest);
    }
  }

  /** The targets of one stream, in arrival order. */
  function OfStream(targets: seq<Target>, stream: Stream): seq<Target> {
    if targets == [] then []
    else
      var last := targets[|targets| - 1];
      OfStream(targets[..|targets| - 1], stream) + if last.stream == stream then [last] else []
  }

  lemma {:induction false} OfStreamContents(targets: seq<Target>, stream: Stream, t: Target)
    ensures t in OfStream(targets, stream) <==> t in targets && t.stream == stream
  {
    if targets != [] {
      OfStreamContents(targets[..|targets| - 1], stream, t);
      assert targets == targets[..|targets| - 1] + [targets[|targets| - 1]];
    }
  }

  ghost predicate DuplicateTarget(targets: seq<Target>) {
    exists i, j :: 0 <= i < j < |targets| && targets[i].stream == targets[j].stream && At(targets[i]) == At(targets[j])
  }

  lemma {:induction false} DistinctWithinStream(targets: seq<Target>, stream: Stream)
    requires !DuplicateTarget(targets)
    ensures DistinctCoordinates(OfStream(targets, stream))
  {
    if targets != [] {
      var front, last := targets[..|targets| - 1], targets[|targets| - 1];
      assert forall i, j :: 0 <= i < j < |front| ==> front[i] == targets[i] && front[j] == targets[j];
      DistinctWithinStream(front, stream);
      var before := OfStream(front, stream);
      if last.stream == stream {
        forall k | 0 <= k < |before| ensures At(before[k]) != At(last) {
          OfStreamContents(front, stream, before[k]);
          var m :| 0 <= m < |front| && front[m] == before[k];
          assert targets[m] == before[k] && targets[|targets| - 1] == last;
        }
      }
    }
  }

  lemma {:induction false} NextOfStream(targets: seq<Target>, i: nat)
    requires i < |targets|
    ensures forall stream :: OfStream(targets[..i + 1], stream) ==
                             OfStream(targets[..i], stream) + if targets[i].stream == stream then [targets[i]] else []
  {
    assert targets[..i + 1][..i] == targets[..i];
  }

  ghost predicate KeyedAmong(targets: seq<Target>, key: (Stream, Coordinate)) {
    exists k :: 0 <= k < |targets| && (targets[k].stream, At(targets[k])) == key
  }

  /** What one more target adds to the keys, and when it repeats one. */
  lemma {:induction false} NextKey(targets: seq<Target>, i: nat)
    requires i < |targets|
    ensures targets[..i + 1][..i] == targets[..i] && targets[..i + 1][i] == targets[i]
    ensures forall key :: KeyedAmong(targets[..i + 1], key) <==>
                            KeyedAmong(targets[..i], key) || key == (targets[i].stream, At(targets[i]))
    ensures KeyedAmong(targets[..i], (targets[i].stream, At(targets[i]))) ==> DuplicateTarget(targets)
    ensures !DuplicateTarget(targets[..i]) && !KeyedAmong(targets[..i], (targets[i].stream, At(targets[i]))) ==>
              !DuplicateTarget(targets[..i + 1])
  {
    var front, last := targets[..i], targets[i];
    assert targets[..i + 1] == front + [last];
    forall key
      ensures KeyedAmong(front + [last], key) <==> KeyedAmong(front, key) || key == (last.stream, At(last))
    {
      assert (front + [last])[i] == last;
      if KeyedAmong(front, key) {
        var k :| 0 <= k < i && (front[k].stream, At(front[k])) == key;
        assert (front + [last])[k] == front[k];
      }
    }
    if KeyedAmong(front, (last.stream, At(last))) {
      var k :| 0 <= k < i && (front[k].stream, At(front[k])) == (last.stream, At(last));
      assert targets[k] == front[k];
    }
  }

  lemma {:induction false} StreamsSortStrictly(targets: seq<Target>)
    requires !DuplicateTarget(targets)
    ensures forall stream :: StrictlySorted(SortTargets(OfStream(targets, stream)))
  {
    forall stream ensures StrictlySorted(SortTargets(OfStream(targets, stream))) {
      DistinctWithinStream(targets, stream);
      SortSorts(OfStream(targets, stream));
    }
  }

  lemma {:induction false} CoordinatesAreSorted(s: seq<Target>)
    requires StrictlySorted(s)
    ensures |CoordinatesOf(s)| == |s| && Sorted(CoordinatesOf(s))
    ensures forall k :: 0 <= k < |s| ==> CoordinatesOf(s)[k] == At(s[k])
  {
  }

  lemma {:induction false} SpanIsSlice(s: seq<Target>, start: Coordinate, end: Coordinate) returns (lo: nat, hi: nat)
    requires StrictlySorted(s)
    ensures lo <= hi <= |s| && SpanFilter(s, start, end) == s[lo..hi]
  {
    var left := FirstNotBefore(s, start);
    var right := FirstAfter(s, end);
    SliceIsFilter(s, start, end, left, right);
    lo, hi := left, if left <= right then right else left;
    assert s[left..left] == [];
  }

  lemma {:induction false} FirstNotBefore(s: seq<Target>, x: Coordinate) returns (r: nat)
    requires StrictlySorted(s)
    ensures r <= |s| && forall k :: 0 <= k < |s| ==> (k < r <==> Before(At(s[k]), x))
  {
    r := 0;
    while r < |s| && Before(At(s[r]), x)
      invariant r <= |s| && forall k :: 0 <= k < r ==> Before(At(s[k]), x)
    {
      r := r + 1;
    }
  }

  lemma {:induction false} FirstAfter(s: seq<Target>, x: Coordinate) returns (r: nat)
    requires StrictlySorted(s)
    ensures r <= |s| && forall k :: 0 <= k < |s| ==> (k < r <==> !Before(x, At(s[k])))
  {
    r := 0;
    while r < |s| && !Before(x, At(s[r]))
      invariant r <= |s| && forall k :: 0 <= k < r ==> !Before(x, At(s[k]))
    {
      r := r + 1;
    }
  }

  class PassageReferenceIndex {
    var byKey: map<(Stream, Coordinate), Target>
    var byStream: map<Stream, seq<Target>>
    var byStreamCoordinates: map<Stream, seq<Coordinate>>

    /** Each stream lists its targets in strictly increasing coordinate order beside their coordinates. */
    ghost predicate Describes(targets: seq<Target>)
      reads this
    {
      && (forall stream :: Targets(stream) == SortTargets(OfStream(targets, stream)))
      && (forall stream :: StrictlySorted(Targets(stream)))
      && byStreamCoordinates == map stream | stream in byStream :: CoordinatesOf(byStream[stream])
    }

    /** `by_stream.get(stream, [])` */
    function Targets(stream: Stream): seq<Target>
      reads this
    {
      if stream in byStream then byStream[stream] else []
    }

    constructor ()
      ensures byKey == map[] && byStream == map[] && byStreamCoordinates == map[]
    {
      byKey, byStream, byStreamCoordinates := map[], map[], map[];
    }

    /** The constructor's first loop. */
    method Collect(targets: seq<Target>) returns (ok: bool)
      requires byKey == map[] && byStream == map[]
      modifies this
      ensures ok <==> !DuplicateTarget(targets)
      ensures ok ==> forall stream :: Targets(stream) == OfStream(targets, stream)
    {
      for i := 0 to |targets|
        invariant !DuplicateTarget(targets[..i])
        invariant forall key :: key in byKey <==> KeyedAmong(targets[..i], key)
        invariant forall stream :: Targets(stream) == OfStream(targets[..i], stream)
      {
        var t := targets[i];
        NextKey(targets, i);
        NextOfStream(targets, i);
        if (t.stream, At(t)) in byKey {
          return false;
        }
        byKey := byKey[(t.stream, At(t)) := t];
        byStream := byStream[t.stream := Targets(t.stream) + [t]];
      }
      assert targets[..|targets|] == targets;
      ok := true;
    }

    /** The constructor's loop and sort; it refuses exactly the lists that repeat a coordinate in a stream. */
    method Load(targets: seq<Target>) returns (ok: bool)
      requires byKey == map[] && byStream == map[]
      modifies this
      ensures ok <==> !DuplicateTarget(targets)
      ensures ok ==> Describes(targets)
    {
      ok := Collect(targets);
      if !ok {
        return;
      }
      byStream := map stream | stream in byStream :: SortTargets(byStream[stream]);
      byStreamCoordinates := map stream | stream in byStream :: CoordinatesOf(byStream[stream]);
      StreamsSortStrictly(targets);
    }

    /** `span`: two binary searches agree with the ordered filter of the stream. */
    method Span(stream: Stream, start: Coordinate, end: Coordinate, ghost targets: seq<Target>) returns (r: seq<Target>)
      requires Describes(targets)
      ensures r == SpanFilter(Targets(stream), start, end)
    {
      var coordinates := if stream in byStreamCoordinates then byStreamCoordinates[stream] else [];
      assert coordinates == CoordinatesOf(Targets(stream));
      CoordinatesAreSorted(Targets(stream));
      var left := BisectLeft(coordinates, start);
      var right := BisectRight(coordinates, end);
      SliceIsFilter(Targets(stream), start, end, left, right);
      r := if left <= right then Targets(stream)[left..right] else [];
    }
  }
}
