/** Which references the parser of src/echoes/benchmarks/references.py accepts and how it classifies the others, said
    of the written text, the registry and the verse bounds alone. */
module ReferenceGrammar {
  import opened Wrappers
  import opened Text
  import opened References

  // ----- Written points -----

  /** The text is `book.chapter.verse`. */
  ghost predicate IsWritten(text: string, book: string, chapter: string, verse: string) {
    BookLike(book) && Digits(chapter) && Digits(verse) && text == book + "." + chapter + "." + verse
  }

  /** The registry knows the point's book under its alias, and the chapter and verse are in range. */
  ghost predicate Stands(registry: Registry, p: Point) {
    && p.alias in registry && p.canonical == registry[p.alias].canonical
    && 1 <= p.chapter <= registry[p.alias].chapters && 1 <= p.verse
  }

  ghost predicate Denotes(registry: Registry, text: string, p: Point) {
    Stands(registry, p)
    && exists chapter, verse ::
         IsWritten(text, p.alias, chapter, verse) && ParseNat(chapter) == p.chapter && ParseNat(verse) == p.verse
  }

  ghost predicate IsChapterAndVerse(text: string, chapter: string, verse: string) {
    Digits(chapter) && Digits(verse) && text == chapter + "." + verse
  }

  /** The end of a range: a full point, or chapter and verse, or a verse, of the book and chapter it starts in. */
  ghost predicate EndDenotes(registry: Registry, start: Point, text: string, p: Point) {
    || Denotes(registry, text, p)
    || (Stands(registry, p) && p.alias == start.alias
        && exists chapter, verse ::
             IsChapterAndVerse(text, chapter, verse) && ParseNat(chapter) == p.chapter && ParseNat(verse) == p.verse)
    || (Stands(registry, p) && p.alias == start.alias && p.chapter == start.chapter
        && Digits(text) && ParseNat(text) == p.verse)
  }

  // ----- What is wrong with a point -----

  /** An unregistered book; a chapter that is zero, or beyond the book at a verse that is not zero; a verse that is
      zero in a chapter that is not. */
  ghost predicate PointFault(registry: Registry, alias: string, chapter: nat, verse: nat, status: ParseStatus) {
    match status
    case UnknownBook => alias !in registry
    case InvalidChapter =>
      alias in registry && (chapter == 0 || (verse > 0 && chapter > registry[alias].chapters))
    case InvalidVerse => alias in registry && chapter > 0 && verse == 0
    case _ => false
  }

  /** The text is a book's name, or starts with one and a dot. */
  ghost predicate StartsWithBook(text: string, book: string) {
    BookLike(book) && (text == book || exists rest :: text == book + "." + rest)
  }

  ghost predicate IsPoint(text: string) { exists book, chapter, verse :: IsWritten(text, book, chapter, verse) }

  ghost predicate NamesUnknownBook(registry: Registry, text: string) {
    exists book :: StartsWithBook(text, book) && book !in registry
  }

  /** A written point with something wrong; or no point at all, which an unregistered book is blamed for first. */
  ghost predicate FullFault(registry: Registry, text: string, status: ParseStatus) {
    if IsPoint(text) then
      exists book, chapter, verse ::
        IsWritten(text, book, chapter, verse)
        && PointFault(registry, book, ParseNat(chapter), ParseNat(verse), status)
    else status == if NamesUnknownBook(registry, text) then UnknownBook else InvalidSyntax
  }

  ghost predicate EndFault(registry: Registry, start: Point, text: string, status: ParseStatus) {
    if IsPoint(text) then FullFault(registry, text, status)
    else if exists chapter, verse :: IsChapterAndVerse(text, chapter, verse) then
      exists chapter, verse ::
        IsChapterAndVerse(text, chapter, verse)
        && PointFault(registry, start.alias, ParseNat(chapter), ParseNat(verse), status)
    else if Digits(text) then PointFault(registry, start.alias, start.chapter, ParseNat(text), status)
    else status == InvalidSyntax
  }

  lemma {:induction false} MakePointMeans(registry: Registry, alias: string, chapter: nat, verse: nat)
    ensures forall status :: MakePoint(registry, alias, chapter, verse) == Failure(status) <==>
              PointFault(registry, alias, chapter, verse, status)
    ensures forall p :: MakePoint(registry, alias, chapter, verse) == Success(p) <==>
              Stands(registry, p) && p.alias == alias && p.chapter == chapter && p.verse == verse
  {
  }

  lemma {:induction false} WrittenIsSplit(text: string, book: string, chapter: string, verse: string)
    requires IsWritten(text, book, chapter, verse)
    ensures Split(text, '.') == [book, chapter, verse] && IsFullPoint(text) && IsPoint(text) && '-' !in text
  {
    DotSplit(book, chapter, verse);
  }

  lemma {:induction false} FullPointIsWritten(text: string)
    requires IsFullPoint(text)
    ensures var parts := Split(text, '.'); IsWritten(text, parts[0], parts[1], parts[2])
  {
    SplitGlues(text, '.');
    var parts := Split(text, '.');
    assert parts[1..][1..] == [parts[2]];
    assert Glue(parts[1..], '.') == parts[1] + ['.'] + parts[2];
    assert text == parts[0] + "." + parts[1] + "." + parts[2];
  }

  /** The first part is what stands before the first dot. */
  lemma {:induction false} FirstPart(text: string, book: string)
    ensures StartsWithBook(text, book) <==> BookLike(book) && Split(text, '.')[0] == book
  {
    if StartsWithBook(text, book) {
      BookAvoids(book, '.');
      if text == book {
        SplitWhole(text, '.');
      } else {
        var rest :| text == book + "." + rest;
        SplitAt(book, '.', rest);
        assert text == book + ['.'] + rest;
      }
    }
    if Split(text, '.')[0] == book {
      SplitGlues(text, '.');
      var parts := Split(text, '.');
      assert |parts| == 1 || text == book + "." + Glue(parts[1..], '.');
    }
  }

  lemma {:induction false} FullPointMeans(registry: Registry, text: string)
    ensures forall p :: FullPoint(registry, text) == Success(p) <==> Denotes(registry, text, p)
    ensures forall status :: FullPoint(registry, text) == Failure(status) <==> FullFault(registry, text, status)
  {
    if IsFullPoint(text) {
      WrittenPointMeans(registry, text);
    } else {
      forall book, chapter, verse ensures !IsWritten(text, book, chapter, verse) {
        if IsWritten(text, book, chapter, verse) { WrittenIsSplit(text, book, chapter, verse); }
      }
      forall book ensures StartsWithBook(text, book) <==> BookLike(book) && Split(text, '.')[0] == book {
        FirstPart(text, book);
      }
    }
  }

  lemma {:induction false} WrittenPointMeans(registry: Registry, text: string)
    requires IsFullPoint(text)
    ensures IsPoint(text)
    ensures forall p :: FullPoint(registry, text) == Success(p) <==> Denotes(registry, text, p)
    ensures forall status :: FullPoint(registry, text) == Failure(status) <==> FullFault(registry, text, status)
  {
    FullPointIsWritten(text);
    var parts := Split(text, '.');
    MakePointMeans(registry, parts[0], ParseNat(parts[1]), ParseNat(parts[2]));
    forall book, chapter, verse | IsWritten(text, book, chapter, verse)
      ensures [book, chapter, verse] == parts
    {
      WrittenIsSplit(text, book, chapter, verse);
    }
  }

  // ----- Range ends -----

  lemma {:induction false} ChapterAndVerseIsSplit(text: string, chapter: string, verse: string)
    requires IsChapterAndVerse(text, chapter, verse)
    ensures Split(text, '.') == [chapter, verse] && !Digits(text)
  {
    ShortEnds(chapter, verse);
    assert text[|chapter|] == '.';
  }

  lemma {:induction false} TwoPartsAreWritten(text: string)
    requires var parts := Split(text, '.'); |parts| == 2 && Digits(parts[0]) && Digits(parts[1])
    ensures var parts := Split(text, '.'); IsChapterAndVerse(text, parts[0], parts[1])
  {
    SplitGlues(text, '.');
    var parts := Split(text, '.');
    assert text == parts[0] + "." + parts[1];
  }

  /** The three written forms exclude one another, and the split tells them apart. */
  lemma {:induction false} FormsAreSplits(text: string)
    ensures IsPoint(text) <==> IsFullPoint(text)
    ensures (exists chapter, verse :: IsChapterAndVerse(text, chapter, verse)) <==>
              var parts := Split(text, '.'); |parts| == 2 && Digits(parts[0]) && Digits(parts[1])
    ensures Digits(text) ==> Split(text, '.') == [text]
  {
    if book, chapter, verse :| IsWritten(text, book, chapter, verse) { WrittenIsSplit(text, book, chapter, verse); }
    if IsFullPoint(text) { FullPointIsWritten(text); }
    if chapter, verse :| IsChapterAndVerse(text, chapter, verse) { ChapterAndVerseIsSplit(text, chapter, verse); }
    var parts := Split(text, '.');
    if |parts| == 2 && Digits(parts[0]) && Digits(parts[1]) { TwoPartsAreWritten(text); }
    if Digits(text) {
      DigitsAvoid(text, '.');
      SplitWhole(text, '.');
    }
  }

  lemma {:induction false} ShortEndMeans(registry: Registry, start: Point, text: string)
    requires exists chapter, verse :: IsChapterAndVerse(text, chapter, verse)
    ensures forall p :: EndPoint(registry, start, text) == Success(p) <==> EndDenotes(registry, start, text, p)
    ensures forall status :: EndPoint(registry, start, text) == Failure(status) <==>
            EndFault(registry, start, text, status)
  {
    FormsAreSplits(text);
    var parts := Split(text, '.');
    TwoPartsAreWritten(text);
    MakePointMeans(registry, start.alias, ParseNat(parts[0]), ParseNat(parts[1]));
    forall chapter, verse | IsChapterAndVerse(text, chapter, verse) ensures [chapter, verse] == parts && !Digits(text) {
      ChapterAndVerseIsSplit(text, chapter, verse);
    }
    forall p ensures !Denotes(registry, text, p) {
      NoPoint(registry, text, p);
    }
  }

  lemma {:induction false} NoPoint(registry: Registry, text: string, p: Point)
    requires !IsPoint(text)
    ensures !Denotes(registry, text, p)
  {
  }

  lemma {:induction false} EndPointMeans(registry: Registry, start: Point, text: string)
    ensures forall p :: EndPoint(registry, start, text) == Success(p) <==> EndDenotes(registry, start, text, p)
    ensures forall status :: EndPoint(registry, start, text) == Failure(status) <==>
            EndFault(registry, start, text, status)
  {
    FormsAreSplits(text);
    if IsPoint(text) {
      FullPointMeans(registry, text);
    } else if exists chapter, verse :: IsChapterAndVerse(text, chapter, verse) {
      ShortEndMeans(registry, start, text);
    } else {
      forall p ensures !Denotes(registry, text, p) {
        NoPoint(registry, text, p);
      }
      if Digits(text) { MakePointMeans(registry, start.alias, start.chapter, ParseNat(text)); }
    }
  }

  // ----- Bounds -----

  ghost predicate HasBound(bounds: Option<VerseBounds>, p: Point) {
    bounds.Some? && (p.canonical, p.chapter) in bounds.value
  }

  ghost predicate Exceeds(bounds: Option<VerseBounds>, p: Point) {
    HasBound(bounds, p) && p.verse > bounds.value[(p.canonical, p.chapter)]
  }

  ghost predicate SamePlace(p: Point, q: Point) { p.chapter == q.chapter && p.verse == q.verse }

  /** In the order of chapters, and of verses inside a chapter. */
  ghost predicate ComesBefore(p: Point, q: Point) {
    p.chapter < q.chapter || (p.chapter == q.chapter && p.verse < q.verse)
  }

  // ----- References -----

  ghost predicate IsCut(reference: string, left: string, right: string) {
    reference == left + "-" + right && '-' !in left
  }

  /** What an accepted reference says: a point within its bound, or two in one book, both within their bounds, that
      run forward. */
  ghost predicate Says(registry: Registry, reference: string, bounds: Option<VerseBounds>, span: Span) {
    if span.isRange then
      && ComesBefore(span.start, span.end) && span.start.canonical == span.end.canonical
      && !Exceeds(bounds, span.start) && !Exceeds(bounds, span.end)
      && (span.boundsValidated <==> HasBound(bounds, span.start) && HasBound(bounds, span.end))
      && exists left, right ::
           IsCut(reference, left, right) && Denotes(registry, left, span.start)
           && EndDenotes(registry, span.start, right, span.end)
    else
      && span.end == span.start && Denotes(registry, reference, span.start)
      && !Exceeds(bounds, span.start) && (span.boundsValidated <==> HasBound(bounds, span.start))
  }

  ghost predicate SpanFault(start: Point, end: Point, bounds: Option<VerseBounds>, status: ParseStatus) {
    if start.canonical != end.canonical then status == CrossBookRange
    else if Exceeds(bounds, start) || Exceeds(bounds, end) then status == InvalidVerse
    else if SamePlace(start, end) then status == EmptyRange
    else ComesBefore(end, start) && status == BackwardRange
  }

  ghost predicate CutFault(registry: Registry, left: string, right: string, bounds: Option<VerseBounds>,
                           status: ParseStatus) {
    if '-' in right then status == InvalidSyntax
    else
      || FullFault(registry, left, status)
      || exists start ::
           Denotes(registry, left, start)
           && if right == "" then status == EmptyRange
              else
                || EndFault(registry, start, right, status)
                || exists end :: EndDenotes(registry, start, right, end) && SpanFault(start, end, bounds, status)
  }

  /** What is wrong with a reference. */
  ghost predicate Fault(registry: Registry, reference: string, scheme: string, bounds: Option<VerseBounds>,
                        status: ParseStatus) {
    if scheme == "" then status == OutsideSourceScheme
    else if reference == "" then status == EmptyReference
    else if HasOuterSpace(reference) then status == InvalidSyntax
    else if '-' !in reference then
      || FullFault(registry, reference, status)
      || (status == InvalidVerse && exists p :: Denotes(registry, reference, p) && Exceeds(bounds, p))
    else exists left, right :: IsCut(reference, left, right) && CutFault(registry, left, right, bounds, status)
  }

  lemma {:induction false} SingleMeans(registry: Registry, reference: string, scheme: string,
                                       bounds: Option<VerseBounds>, span: Span, status: ParseStatus)
    requires '-' !in reference
    ensures SingleOutcome(registry, reference, scheme, bounds) == Success(span) <==>
              span.original == reference && span.scheme == scheme && !span.isRange
              && Says(registry, reference, bounds, span)
    ensures SingleOutcome(registry, reference, scheme, bounds) == Failure(status) <==>
              || FullFault(registry, reference, status)
              || (status == InvalidVerse && exists p :: Denotes(registry, reference, p) && Exceeds(bounds, p))
  {
    FullPointMeans(registry, reference);
  }

  lemma {:induction false} SpanMeans(reference: string, scheme: string, start: Point, end: Point,
                                     bounds: Option<VerseBounds>, span: Span, status: ParseStatus)
    ensures RangeSpan(reference, scheme, start, end, bounds) == Failure(status) <==>
              SpanFault(start, end, bounds, status)
    ensures RangeSpan(reference, scheme, start, end, bounds) == Success(span) <==>
              && span.original == reference && span.scheme == scheme && span.isRange
              && span.start == start && span.end == end
              && start.canonical == end.canonical && ComesBefore(start, end)
              && !Exceeds(bounds, start) && !Exceeds(bounds, end)
              && (span.boundsValidated <==> HasBound(bounds, start) && HasBound(bounds, end))
  {
  }

  lemma {:induction false} CutMeans(registry: Registry, reference: string, left: string, right: string, scheme: string,
                                    bounds: Option<VerseBounds>, span: Span, status: ParseStatus)
    requires '-' !in right
    ensures RangeOutcome(registry, reference, left, right, scheme, bounds) == Failure(status) <==>
              CutFault(registry, left, right, bounds, status)
    ensures RangeOutcome(registry, reference, left, right, scheme, bounds) == Success(span) <==>
              && RangeSpan(reference, scheme, span.start, span.end, bounds) == Success(span)
              && Denotes(registry, left, span.start) && EndDenotes(registry, span.start, right, span.end)
  {
    FullPointMeans(registry, left);
    var first := FullPoint(registry, left);
    if first.Success? {
      EndPointMeans(registry, first.value, right);
      var second := EndPoint(registry, first.value, right);
      if second.Success? { SpanMeans(reference, scheme, first.value, second.value, bounds, span, status); }
    }
  }

  // ----- The cut -----

  lemma {:induction false} CutExists(reference: string) returns (left: string, right: string)
    requires '-' in reference
    ensures IsCut(reference, left, right)
  {
    if reference[0] == '-' {
      left, right := "", reference[1..];
      assert reference == ['-'] + right;
    } else {
      assert reference == [reference[0]] + reference[1..];
      left, right := CutExists(reference[1..]);
      left := [reference[0]] + left;
      assert reference == left + "-" + right;
    }
  }

  /** The reference cut at its first separator, and whether another follows. */
  lemma {:induction false} FirstCut(reference: string) returns (left: string, right: string)
    requires '-' in reference
    ensures IsCut(reference, left, right)
    ensures '-' in right <==> |Split(reference, '-')| > 2
    ensures '-' !in right ==> Split(reference, '-') == [left, right]
  {
    left, right := CutExists(reference);
    assert reference == left + ['-'] + right;
    SplitAt(left, '-', right);
    if '-' in right { SplitsInTwo(right, '-'); } else { SplitWhole(right, '-'); }
  }

  lemma {:induction false} SplitsInTwo(s: string, c: char)
    requires c in s
    ensures |Split(s, c)| >= 2
  {
    if |Split(s, c)| == 1 {
      SplitGlues(s, c);
      SplitAvoids(s, c);
    }
  }

  lemma {:induction false} SplitAvoids(s: string, c: char)
    ensures c !in Split(s, c)[0]
  {
    if s != [] && s[0] != c { SplitAvoids(s[1..], c); }
  }

  lemma {:induction false} CutIsUnique(reference: string, left: string, right: string, first: string, second: string)
    requires IsCut(reference, left, right) && IsCut(reference, first, second)
    ensures left == first && right == second
  {
    assert reference[|left|] == '-' && reference[|first|] == '-';
    assert forall k :: 0 <= k < |left| ==> left[k] == reference[k];
    assert forall k :: 0 <= k < |first| ==> first[k] == reference[k];
    assert left == reference[..|left|] && first == reference[..|first|];
    assert right == reference[|left| + 1..] && second == reference[|first| + 1..];
  }

  // ----- No white space around what is accepted -----

  lemma {:induction false} PointEnds(registry: Registry, text: string, p: Point)
    requires Denotes(registry, text, p)
    ensures '-' !in text && text != "" && !IsSpace(text[0]) && !IsSpace(text[|text| - 1])
  {
    var chapter, verse :| IsWritten(text, p.alias, chapter, verse);
    WrittenIsSplit(text, p.alias, chapter, verse);
    assert text[0] == p.alias[0] && text[|text| - 1] == verse[|verse| - 1];
    assert IsLetter(text[0]) || IsDigit(text[0]);
    assert IsDigit(text[|text| - 1]);
  }

  lemma {:induction false} EndEnds(registry: Registry, start: Point, text: string, p: Point)
    requires EndDenotes(registry, start, text, p)
    ensures '-' !in text && text != "" && !IsSpace(text[|text| - 1])
  {
    if Denotes(registry, text, p) {
      PointEnds(registry, text, p);
    } else if Digits(text) {
      assert IsDigit(text[|text| - 1]);
    } else {
      var chapter, verse :| IsChapterAndVerse(text, chapter, verse);
      ShortEnds(chapter, verse);
      assert text[|text| - 1] == verse[|verse| - 1];
      assert IsDigit(text[|text| - 1]);
    }
  }

  lemma {:induction false} SaidIsTrimmed(registry: Registry, reference: string, bounds: Option<VerseBounds>, span: Span)
    requires Says(registry, reference, bounds, span)
    ensures reference != "" && !HasOuterSpace(reference)
    ensures span.isRange <==> '-' in reference
    ensures span.isRange ==>
              exists left, right ::
                IsCut(reference, left, right) && '-' !in right && Denotes(registry, left, span.start)
                && EndDenotes(registry, span.start, right, span.end)
  {
    if span.isRange {
      var left, right :| IsCut(reference, left, right) && Denotes(registry, left, span.start)
        && EndDenotes(registry, span.start, right, span.end);
      PointEnds(registry, left, span.start);
      EndEnds(registry, span.start, right, span.end);
      assert reference[0] == left[0] && reference[|reference| - 1] == right[|right| - 1];
      assert reference[|left|] == '-';
    } else {
      PointEnds(registry, reference, span.start);
    }
  }

  // ----- The two laws -----

  /** The parser accepts exactly the references that say something, and returns what they say. */
  lemma {:induction false} ParsesExactlyWhen(registry: Registry, reference: string, scheme: string,
                                             bounds: Option<VerseBounds>, span: Span)
    ensures Parse(registry, reference, scheme, bounds) == Success(span) <==>
              && scheme != "" && span.scheme == scheme && span.original == reference
              && Says(registry, reference, bounds, span)
  {
    if Says(registry, reference, bounds, span) { SaidIsTrimmed(registry, reference, bounds, span); }
    if scheme == "" || reference == "" || HasOuterSpace(reference) {
    } else if '-' !in reference {
      SplitWhole(reference, '-');
      SingleMeans(registry, reference, scheme, bounds, span, InvalidSyntax);
    } else {
      CutParsesExactlyWhen(registry, reference, scheme, bounds, span);
    }
  }

  lemma {:induction false} CutParsesExactlyWhen(registry: Registry, reference: string, scheme: string,
                                                bounds: Option<VerseBounds>, span: Span)
    requires '-' in reference && scheme != "" && !HasOuterSpace(reference)
    ensures Parse(registry, reference, scheme, bounds) == Success(span) <==>
              && span.scheme == scheme && span.original == reference && Says(registry, reference, bounds, span)
  {
    var left, right := FirstCut(reference);
    forall first, second | IsCut(reference, first, second) ensures first == left && second == right {
      CutIsUnique(reference, first, second, left, right);
    }
    if Says(registry, reference, bounds, span) { SaidIsTrimmed(registry, reference, bounds, span); }
    if '-' !in right {
      CutMeans(registry, reference, left, right, scheme, bounds, span, InvalidSyntax);
      SpanMeans(reference, scheme, span.start, span.end, bounds, span, InvalidSyntax);
    }
  }

  /** Every other reference is refused with the status its first fault calls for. */
  lemma {:induction false} FailsExactlyWhen(registry: Registry, reference: string, scheme: string,
                                            bounds: Option<VerseBounds>, status: ParseStatus)
    ensures Parse(registry, reference, scheme, bounds) == Failure(status) <==>
              Fault(registry, reference, scheme, bounds, status)
  {
    var span := Span(reference, scheme, Point("", "", 0, 0), Point("", "", 0, 0), false, false);
    if scheme == "" || reference == "" || HasOuterSpace(reference) {
    } else if '-' !in reference {
      SplitWhole(reference, '-');
      SingleMeans(registry, reference, scheme, bounds, span, status);
    } else {
      var left, right := FirstCut(reference);
      forall first, second | IsCut(reference, first, second) ensures first == left && second == right {
        CutIsUnique(reference, first, second, left, right);
      }
      if '-' !in right { CutMeans(registry, reference, left, right, scheme, bounds, span, status); }
    }
  }

  // ----- Printed references -----

  lemma {:induction false} PrintedDenotes(registry: Registry, p: Point)
    requires Governed(registry, p)
    ensures Denotes(registry, PrintPoint(p), p)
  {
    PrintedIsDigits(p.chapter);
    PrintedIsDigits(p.verse);
    assert IsWritten(PrintPoint(p), p.alias, PrintNat(p.chapter), PrintNat(p.verse));
  }

  /** A printed point is accepted, as a single verse, exactly when no bound of its chapter is below it. */
  lemma {:induction false} PrintedPointParses(registry: Registry, p: Point, scheme: string, bounds: Option<VerseBounds>)
    requires Governed(registry, p) && scheme != ""
    ensures var bounded := bounds.Some? && (p.canonical, p.chapter) in bounds.value;
            Parse(registry, PrintPoint(p), scheme, bounds)
            == if bounded && bounds.value[(p.canonical, p.chapter)] < p.verse then Failure(InvalidVerse)
               else Success(Span(PrintPoint(p), scheme, p, p, false, bounded))
  {
    PrintedDenotes(registry, p);
    PointEnds(registry, PrintPoint(p), p);
    if Exceeds(bounds, p) {
      FailsExactlyWhen(registry, PrintPoint(p), scheme, bounds, InvalidVerse);
    } else {
      ParsesExactlyWhen(registry, PrintPoint(p), scheme, bounds,
                        Span(PrintPoint(p), scheme, p, p, false, HasBound(bounds, p)));
    }
  }

  /** A printed range is accepted exactly when it lies in one book, within the bounds of both its points, and runs
      forward; otherwise the book is faulted before a bound, a bound before the extent, and the extent before the
      direction. */
  lemma {:induction false} PrintedRangeOutcome(registry: Registry, start: Point, end: Point, scheme: string,
                                               bounds: Option<VerseBounds>)
    requires Governed(registry, start) && Governed(registry, end) && scheme != ""
    ensures var reference := PrintPoint(start) + "-" + PrintPoint(end);
            var parsed := Parse(registry, reference, scheme, bounds);
            && (parsed.Success? <==>
                  && start.canonical == end.canonical && !Exceeds(bounds, start) && !Exceeds(bounds, end)
                  && ComesBefore(start, end))
            && (parsed.Success? ==>
                  parsed.value == Span(reference, scheme, start, end, true,
                                       HasBound(bounds, start) && HasBound(bounds, end)))
            && (forall status :: parsed == Failure(status) <==> SpanFault(start, end, bounds, status))
  {
    var reference := PrintPoint(start) + "-" + PrintPoint(end);
    PrintedRangeParses(registry, start, end, scheme, bounds);
    var said := Span(reference, scheme, start, end, true, HasBound(bounds, start) && HasBound(bounds, end));
    forall status
      ensures RangeSpan(reference, scheme, start, end, bounds) == Failure(status) <==>
                SpanFault(start, end, bounds, status)
    {
      SpanMeans(reference, scheme, start, end, bounds, said, status);
    }
    SpanMeans(reference, scheme, start, end, bounds, said, CrossBookRange);
  }
}
