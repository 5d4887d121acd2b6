/** Chapter-and-verse coordinates, their order, and the expansion of a span into them
    (src/echoes/benchmarks/references.py). */
module Coordinates {
  import opened Wrappers
  import opened References

  type Coordinate = (nat, nat)

  predicate Before(a: Coordinate, b: Coordinate) {
    a.0 < b.0 || (a.0 == b.0 && a.1 < b.1)
  }

  ghost predicate Increasing(s: seq<Coordinate>) {
    forall i, j :: 0 <= i < j < |s| ==> Before(s[i], s[j])
  }

  predicate Between(c: Coordinate, start: Coordinate, end: Coordinate) {
    !Before(c, start) && !Before(end, c)
  }

  /** Increasing sequences with the same members are equal. */
  lemma {:induction false} IncreasingIsDetermined(a: seq<Coordinate>, b: seq<Coordinate>)
    requires Increasing(a) && Increasing(b)
    requires forall c :: c in a <==> c in b
    ensures a == b
  {
    assert b == [] || b[0] in b;
    if a != [] {
      assert a[0] in b;
      var k :| 0 <= k < |b| && b[k] == a[0];
      assert b[0] in a;
      assert k == 0;
      assert a == [a[0]] + a[1..] && b == [b[0]] + b[1..];
      TailMembers(a);
      TailMembers(b);
      IncreasingIsDetermined(a[1..], b[1..]);
    }
  }

  lemma {:induction false} TailMembers(s: seq<Coordinate>)
    requires Increasing(s) && s != []
    ensures forall c :: c in s[1..] <==> c in s && c != s[0]
  {
    assert s == [s[0]] + s[1..];
    forall i | 0 <= i < |s[1..]| ensures s[1..][i] != s[0] {
      assert Before(s[0], s[i + 1]);
    }
  }

  function StartOf(span: Span): Coordinate { (span.start.chapter, span.start.verse) }

  function EndOf(span: Span): Coordinate { (span.end.chapter, span.end.verse) }

  /** The verses the expansion takes from one chapter. */
  function FirstVerse(span: Span, chapter: nat): nat {
    if chapter == span.start.chapter then span.start.verse else 1
  }

  function LastVerse(span: Span, chapter: nat, maximum: nat): nat {
    if chapter == span.end.chapter then span.end.verse else maximum
  }

  function Verses(chapter: nat, first: nat, last: nat): (r: seq<Coordinate>)
    ensures forall c :: c in r <==> c.0 == chapter && first <= c.1 <= last
    ensures Increasing(r)
    decreases last + 1 - first
  {
    if first > last then [] else [(chapter, first)] + Verses(chapter, first + 1, last)
  }

  /** Every chapter the span touches has a bound that admits the verses taken from it. */
  ghost predicate BoundsAdmit(span: Span, bounds: VerseBounds, from: nat, to: nat) {
    forall chapter: nat :: from <= chapter < to ==> ChapterAdmits(span, bounds, chapter)
  }

  predicate ChapterAdmits(span: Span, bounds: VerseBounds, chapter: nat) {
    && (span.start.canonical, chapter) in bounds
    && FirstVerse(span, chapter) <= bounds[(span.start.canonical, chapter)]
    && LastVerse(span, chapter, bounds[(span.start.canonical, chapter)]) <= bounds[(span.start.canonical, chapter)]
  }

  /** The first touched chapter that is not admitted. */
  ghost predicate IsFirstRefused(span: Span, bounds: VerseBounds, chapter: nat) {
    && span.start.chapter <= chapter <= span.end.chapter
    && !ChapterAdmits(span, bounds, chapter) && BoundsAdmit(span, bounds, span.start.chapter, chapter)
  }

  /** Why a chapter is refused: without a bound it is outside the scheme, and otherwise a verse is beyond the bound. */
  function Refusal(span: Span, bounds: VerseBounds, chapter: nat): ParseStatus {
    if (span.start.canonical, chapter) !in bounds then OutsideSourceScheme else InvalidVerse
  }

  /** A coordinate the source scheme has: within its chapter's bound. */
  predicate Exists(bounds: VerseBounds, book: string, c: Coordinate) {
    (book, c.0) in bounds && 1 <= c.1 <= bounds[(book, c.0)]
  }

  /** `expand_canonical_references`: it succeeds exactly when every touched chapter is bounded and admits its
      verses, and then lists, in strictly increasing order and without gaps, every existing coordinate of
      the span. */
  method ExpandCanonicalReferences(span: Span, bounds: VerseBounds) returns (r: Result<seq<Coordinate>, ParseStatus>)
    requires span.start.verse >= 1 && !Before(EndOf(span), StartOf(span))
    ensures r.Success? <==> BoundsAdmit(span, bounds, span.start.chapter, span.end.chapter + 1)
    ensures r.Failure? ==>
              exists chapter :: IsFirstRefused(span, bounds, chapter) && r.error == Refusal(span, bounds, chapter)
    ensures r.Success? ==>
              && Increasing(r.value)
              && forall c :: c in r.value <==>
                   Between(c, StartOf(span), EndOf(span)) && Exists(bounds, span.start.canonical, c)
  {
    var references: seq<Coordinate> := [];
    for chapter := span.start.chapter to span.end.chapter + 1
      invariant BoundsAdmit(span, bounds, span.start.chapter, chapter)
      invariant Increasing(references)
      invariant forall c :: c in references <==>
                  c.0 < chapter && Between(c, StartOf(span), EndOf(span)) && Exists(bounds, span.start.canonical, c)
    {
      if (span.start.canonical, chapter) !in bounds {
        assert IsFirstRefused(span, bounds, chapter);
        return Failure(OutsideSourceScheme);
      }
      var maximum := bounds[(span.start.canonical, chapter)];
      var first, last := FirstVerse(span, chapter), LastVerse(span, chapter, maximum);
      if first > maximum || last > maximum {
        assert IsFirstRefused(span, bounds, chapter);
        return Failure(InvalidVerse);
      }
      var verses := Verses(chapter, first, last);
      assert forall i :: 0 <= i < |references| ==> references[i] in references;
      assert forall i :: 0 <= i < |verses| ==> verses[i] in verses;
      references := references + verses;
    }
    r := Success(references);
  }
}
