/** Reference parsing and printing of src/echoes/benchmarks/references.py. */
module References {
  import opened Wrappers
  import opened Text

  datatype ParseStatus =
    | EmptyReference
    | InvalidSyntax
    | UnknownBook
    | InvalidChapter
    | InvalidVerse
    | EmptyRange
    | BackwardRange
    | CrossBookRange
    | OutsideSourceScheme

  /** A source alias's canonical code and chapter count. */
  datatype Book = Book(canonical: string, chapters: nat)

  /** The alias registry; every statement below holds for any registry. */
  type Registry = map<string, Book>

  type VerseBounds = map<(string, nat), nat>

  datatype Point = Point(alias: string, canonical: string, chapter: nat, verse: nat)

  datatype Span = Span(
    original: string,
    scheme: string,
    start: Point,
    end: Point,
    isRange: bool,
    boundsValidated: bool)

  function PrintPoint(p: Point): string {
    p.alias + "." + PrintNat(p.chapter) + "." + PrintNat(p.verse)
  }

  /** `normalized_source_reference` */
  function Normalized(span: Span): string {
    if span.isRange then PrintPoint(span.start) + "-" + PrintPoint(span.end) else PrintPoint(span.start)
  }

  /** `_point` */
  function MakePoint(registry: Registry, alias: string, chapter: nat, verse: nat): Result<Point, ParseStatus> {
    if alias !in registry then Failure(UnknownBook)
    else if chapter < 1 then Failure(InvalidChapter)
    else if verse < 1 then Failure(InvalidVerse)
    else if chapter > registry[alias].chapters then Failure(InvalidChapter)
    else Success(Point(alias, registry[alias].canonical, chapter, verse))
  }

  /** The three-part regular expression, as a split on dots. */
  predicate IsFullPoint(value: string) {
    var parts := Split(value, '.');
    |parts| == 3 && BookLike(parts[0]) && Digits(parts[1]) && Digits(parts[2])
  }

  /** `_full_point` */
  function FullPoint(registry: Registry, value: string): Result<Point, ParseStatus> {
    var parts := Split(value, '.');
    if IsFullPoint(value) then MakePoint(registry, parts[0], ParseNat(parts[1]), ParseNat(parts[2]))
    else if BookLike(parts[0]) && parts[0] !in registry then Failure(UnknownBook)
    else Failure(InvalidSyntax)
  }

  datatype BoundCheck = Unbounded | Within | Beyond

  /** `_validate_verse_bound` */
  function CheckBound(p: Point, bounds: Option<VerseBounds>): BoundCheck {
    if bounds.None? || (p.canonical, p.chapter) !in bounds.value then Unbounded
    else if p.verse > bounds.value[(p.canonical, p.chapter)] then Beyond
    else Within
  }

  /** The range endpoint: a full point, chapter and verse, or a verse alone. */
  function EndPoint(registry: Registry, start: Point, value: string): Result<Point, ParseStatus> {
    var parts := Split(value, '.');
    if IsFullPoint(value) then FullPoint(registry, value)
    else if |parts| == 2 && Digits(parts[0]) && Digits(parts[1]) then
      MakePoint(registry, start.alias, ParseNat(parts[0]), ParseNat(parts[1]))
    else if Digits(value) then MakePoint(registry, start.alias, start.chapter, ParseNat(value))
    else Failure(InvalidSyntax)
  }

  predicate Precedes(p: Point, q: Point) {
    p.chapter < q.chapter || (p.chapter == q.chapter && p.verse < q.verse)
  }

  function SingleSpan(reference: string, scheme: string, start: Point, bounds: Option<VerseBounds>)
    : Result<Span, ParseStatus>
  {
    match CheckBound(start, bounds)
    case Beyond => Failure(InvalidVerse)
    case check => Success(Span(reference, scheme, start, start, false, check.Within?))
  }

  function RangeSpan(reference: string, scheme: string, start: Point, end: Point, bounds: Option<VerseBounds>)
    : Result<Span, ParseStatus>
  {
    if end.canonical != start.canonical then Failure(CrossBookRange)
    else if CheckBound(start, bounds).Beyond? || CheckBound(end, bounds).Beyond? then Failure(InvalidVerse)
    else if (end.chapter, end.verse) == (start.chapter, start.verse) then Failure(EmptyRange)
    else if Precedes(end, start) then Failure(BackwardRange)
    else Success(Span(reference, scheme, start, end, true,
                      CheckBound(start, bounds).Within? && CheckBound(end, bounds).Within?))
  }

  /** The outcome once the reference is cut at its range separator. */
  function RangeOutcome(registry: Registry, reference: string, left: string, right: string, scheme: string,
                        bounds: Option<VerseBounds>): Result<Span, ParseStatus>
  {
    match FullPoint(registry, left)
    case Failure(status) => Failure(status)
    case Success(start) =>
      if right == "" then Failure(EmptyRange)
      else
        match EndPoint(registry, start, right)
        case Failure(status) => Failure(status)
        case Success(end) => RangeSpan(reference, scheme, start, end, bounds)
  }

  function SingleOutcome(registry: Registry, reference: string, scheme: string, bounds: Option<VerseBounds>)
    : Result<Span, ParseStatus>
  {
    match FullPoint(registry, reference)
    case Failure(status) => Failure(status)
    case Success(start) => SingleSpan(reference, scheme, start, bounds)
  }

  /** `parse_openbible_reference` */
  function Parse(registry: Registry, reference: string, scheme: string, bounds: Option<VerseBounds>)
    : Result<Span, ParseStatus>
  {
    if scheme == "" then Failure(OutsideSourceScheme)
    else if reference == "" then Failure(EmptyReference)
    else if HasOuterSpace(reference) then Failure(InvalidSyntax)
    else
      var parts := Split(reference, '-');
      if |parts| > 2 then Failure(InvalidSyntax)
      else if |parts| == 1 then SingleOutcome(registry, reference, scheme, bounds)
      else RangeOutcome(registry, reference, parts[0], parts[1], scheme, bounds)
  }

  // ----- Points read back as they were written -----

  /** What every point the parser builds satisfies. */
  ghost predicate Governed(registry: Registry, p: Point) {
    && BookLike(p.alias) && p.alias in registry && p.canonical == registry[p.alias].canonical
    && 1 <= p.chapter <= registry[p.alias].chapters && 1 <= p.verse
  }

  lemma {:induction false} DotSplit(book: string, chapter: string, verse: string)
    requires BookLike(book) && Digits(chapter) && Digits(verse)
    ensures Split(book + "." + chapter + "." + verse, '.') == [book, chapter, verse]
    ensures '-' !in book + "." + chapter + "." + verse
    ensures IsFullPoint(book + "." + chapter + "." + verse)
  {
    BookAvoids(book, '.');
    BookAvoids(book, '-');
    DigitsAvoid(chapter, '.');
    DigitsAvoid(chapter, '-');
    DigitsAvoid(verse, '.');
    DigitsAvoid(verse, '-');
    SplitAt(book, '.', chapter + "." + verse);
    SplitAt(chapter, '.', verse);
    SplitWhole(verse, '.');
    assert book + ['.'] + (chapter + "." + verse) == book + "." + chapter + "." + verse;
    assert chapter + ['.'] + verse == chapter + "." + verse;
  }

  lemma {:induction false} PrintedPointReadsBack(registry: Registry, p: Point)
    requires Governed(registry, p)
    ensures FullPoint(registry, PrintPoint(p)) == Success(p)
    ensures IsFullPoint(PrintPoint(p)) && '-' !in PrintPoint(p)
  {
    PrintedIsDigits(p.chapter);
    PrintedIsDigits(p.verse);
    DotSplit(p.alias, PrintNat(p.chapter), PrintNat(p.verse));
  }

  lemma {:induction false} FullPointIsGoverned(registry: Registry, value: string)
    ensures FullPoint(registry, value).Success? ==> Governed(registry, FullPoint(registry, value).value)
  {
  }

  lemma {:induction false} EndPointIsGoverned(registry: Registry, start: Point, value: string)
    requires Governed(registry, start)
    ensures EndPoint(registry, start, value).Success? ==> Governed(registry, EndPoint(registry, start, value).value)
  {
  }

  /** No outer white space around a printed point or range. */
  lemma {:induction false} PrintedHasNoOuterSpace(p: Point, q: Point)
    requires BookLike(p.alias)
    ensures PrintPoint(p) != "" && !HasOuterSpace(PrintPoint(p))
    ensures !HasOuterSpace(PrintPoint(p) + "-" + PrintPoint(q))
  {
    PrintedIsDigits(p.verse);
    PrintedIsDigits(q.verse);
    var s, t := PrintPoint(p), PrintPoint(p) + "-" + PrintPoint(q);
    assert s[0] == p.alias[0] && t[0] == p.alias[0];
    assert IsDigit(p.alias[0]) || IsLetter(p.alias[0]);
    var lastP, lastQ := PrintNat(p.verse), PrintNat(q.verse);
    assert s[|s| - 1] == lastP[|lastP| - 1];
    assert t[|t| - 1] == lastQ[|lastQ| - 1];
  }

  lemma {:induction false} ParseOfRange(registry: Registry, left: string, right: string, scheme: string,
                                        bounds: Option<VerseBounds>)
    requires scheme != "" && '-' !in left && '-' !in right && !HasOuterSpace(left + "-" + right)
    ensures Parse(registry, left + "-" + right, scheme, bounds)
            == RangeOutcome(registry, left + "-" + right, left, right, scheme, bounds)
  {
    SplitAt(left, '-', right);
    SplitWhole(right, '-');
    assert left + ['-'] + right == left + "-" + right;
  }

  lemma {:induction false} ParseOfSingle(registry: Registry, reference: string, scheme: string,
                                         bounds: Option<VerseBounds>)
    requires scheme != "" && reference != "" && '-' !in reference && !HasOuterSpace(reference)
    ensures Parse(registry, reference, scheme, bounds) == SingleOutcome(registry, reference, scheme, bounds)
  {
    SplitWhole(reference, '-');
  }

  /** An accepted span is one of the two outcomes for its own points, which are governed; a range runs
      forward inside one book. */
  lemma {:induction false} ParsedShape(registry: Registry, reference: string, scheme: string,
                                       bounds: Option<VerseBounds>)
    requires Parse(registry, reference, scheme, bounds).Success?
    ensures var span := Parse(registry, reference, scheme, bounds).value;
            && scheme != "" && span.original == reference
            && Governed(registry, span.start) && Governed(registry, span.end)
            && (if span.isRange then
                  && span.start.canonical == span.end.canonical && Precedes(span.start, span.end)
                  && RangeSpan(reference, scheme, span.start, span.end, bounds) == Success(span)
                else
                  && span.start == span.end
                  && SingleSpan(reference, scheme, span.start, bounds) == Success(span))
  {
    var parts := Split(reference, '-');
    if |parts| == 1 {
      FullPointIsGoverned(registry, reference);
    } else {
      FullPointIsGoverned(registry, parts[0]);
      EndPointIsGoverned(registry, FullPoint(registry, parts[0]).value, parts[1]);
    }
  }

  lemma {:induction false} PrintedEndReadsBack(registry: Registry, start: Point, end: Point)
    requires Governed(registry, end)
    ensures EndPoint(registry, start, PrintPoint(end)) == Success(end)
  {
    PrintedPointReadsBack(registry, end);
  }

  // ----- Round trip -----

  /** Reading a span's normalized form returns the same span, up to the preserved original spelling. */
  lemma {:induction false} NormalizedReadsBack(registry: Registry, reference: string, scheme: string,
                                               bounds: Option<VerseBounds>)
    requires Parse(registry, reference, scheme, bounds).Success?
    ensures var span := Parse(registry, reference, scheme, bounds).value;
            Parse(registry, Normalized(span), scheme, bounds) == Success(span.(original := Normalized(span)))
  {
    var span := Parse(registry, reference, scheme, bounds).value;
    ParsedShape(registry, reference, scheme, bounds);
    PrintedHasNoOuterSpace(span.start, span.end);
    PrintedPointReadsBack(registry, span.start);
    if span.isRange {
      PrintedPointReadsBack(registry, span.end);
      PrintedHasNoOuterSpace(span.end, span.end);
      PrintedEndReadsBack(registry, span.start, span.end);
      ParseOfRange(registry, PrintPoint(span.start), PrintPoint(span.end), scheme, bounds);
    } else {
      ParseOfSingle(registry, PrintPoint(span.start), scheme, bounds);
    }
  }

  /** Any two governed points, printed as a range, are read as that range, so that every forward range inside one
      book whose verses no bound forbids is accepted. */
  lemma {:induction false} PrintedRangeParses(registry: Registry, start: Point, end: Point, scheme: string,
                                              bounds: Option<VerseBounds>)
    requires Governed(registry, start) && Governed(registry, end) && scheme != ""
    ensures var reference := PrintPoint(start) + "-" + PrintPoint(end);
            Parse(registry, reference, scheme, bounds) == RangeSpan(reference, scheme, start, end, bounds)
  {
    PrintedHasNoOuterSpace(start, end);
    PrintedPointReadsBack(registry, start);
    PrintedPointReadsBack(registry, end);
    PrintedHasNoOuterSpace(end, end);
    PrintedEndReadsBack(registry, start, end);
    ParseOfRange(registry, PrintPoint(start), PrintPoint(end), scheme, bounds);
  }

  /** Normalizing twice is normalizing once. */
  lemma {:induction false} NormalizationIsIdempotent(registry: Registry, reference: string, scheme: string,
                                                     bounds: Option<VerseBounds>)
    requires Parse(registry, reference, scheme, bounds).Success?
    ensures var once := Normalized(Parse(registry, reference, scheme, bounds).value);
            && Parse(registry, once, scheme, bounds).Success?
            && Normalized(Parse(registry, once, scheme, bounds).value) == once
  {
    NormalizedReadsBack(registry, reference, scheme, bounds);
  }

  /** Equal normalized forms mean equal spans. */
  lemma {:induction false} NormalizedFormDetermines(registry: Registry, first: string, second: string, scheme: string,
                                                    bounds: Option<VerseBounds>)
    requires Parse(registry, first, scheme, bounds).Success? && Parse(registry, second, scheme, bounds).Success?
    ensures var a, b := Parse(registry, first, scheme, bounds).value, Parse(registry, second, scheme, bounds).value;
            Normalized(a) == Normalized(b) <==> a.start == b.start && a.end == b.end && a.isRange == b.isRange
  {
    NormalizedReadsBack(registry, first, scheme, bounds);
    NormalizedReadsBack(registry, second, scheme, bounds);
  }

  // ----- Short range forms -----

  /** Two outcomes that agree except for the preserved original spelling. */
  predicate SameOutcome(a: Result<Span, ParseStatus>, b: Result<Span, ParseStatus>) {
    match (a, b)
    case (Success(s), Success(t)) => s.(original := "") == t.(original := "")
    case (Failure(s), Failure(t)) => s == t
    case _ => false
  }

  lemma {:induction false} ShortEndsMeanFullEnds(registry: Registry, book: string, chapter: string, endVerse: string,
                                                 start: Point)
    requires BookLike(book) && Digits(chapter) && Digits(endVerse) && start.alias == book
    ensures EndPoint(registry, start, chapter + "." + endVerse)
            == EndPoint(registry, start, book + "." + chapter + "." + endVerse)
    ensures start.chapter == ParseNat(chapter) ==>
              EndPoint(registry, start, endVerse) == EndPoint(registry, start, book + "." + chapter + "." + endVerse)
  {
    DotSplit(book, chapter, endVerse);
    ShortEnds(chapter, endVerse);
  }

  /** The verse-only and chapter-and-verse range forms mean the full form, in every outcome: the same span
      or the same classified failure. */
  lemma {:induction false} ShortFormsMeanFullForm(registry: Registry, book: string, chapter: string, verse: string,
                                                  endChapter: string, endVerse: string, scheme: string,
                                                  bounds: Option<VerseBounds>)
    requires BookLike(book) && Digits(chapter) && Digits(verse) && Digits(endChapter) && Digits(endVerse)
    ensures var start := book + "." + chapter + "." + verse;
            && SameOutcome(Parse(registry, start + "-" + endVerse, scheme, bounds),
                           Parse(registry, start + "-" + (book + "." + chapter + "." + endVerse), scheme, bounds))
            && SameOutcome(Parse(registry, start + "-" + (endChapter + "." + endVerse), scheme, bounds),
                           Parse(registry, start + "-" + (book + "." + endChapter + "." + endVerse), scheme, bounds))
  {
    if scheme != "" {
      ShortFormMeans(registry, book, chapter, verse, endVerse, chapter, endVerse, scheme, bounds);
      ShortFormMeans(registry, book, chapter, verse, endChapter + "." + endVerse, endChapter, endVerse, scheme, bounds);
    }
  }

  lemma {:induction false} ShortFormMeans(registry: Registry, book: string, chapter: string, verse: string,
                                          short: string, endChapter: string, endVerse: string, scheme: string,
                                          bounds: Option<VerseBounds>)
    requires BookLike(book) && Digits(chapter) && Digits(verse) && Digits(endChapter) && Digits(endVerse)
    requires scheme != ""
    requires short == endChapter + "." + endVerse || (short == endVerse && endChapter == chapter)
    ensures var start := book + "." + chapter + "." + verse;
            SameOutcome(Parse(registry, start + "-" + short, scheme, bounds),
                        Parse(registry, start + "-" + (book + "." + endChapter + "." + endVerse), scheme, bounds))
  {
    var start, full := book + "." + chapter + "." + verse, book + "." + endChapter + "." + endVerse;
    DotSplit(book, chapter, verse);
    DotSplit(book, endChapter, endVerse);
    ShortEnds(endChapter, endVerse);
    OuterCharacters(start, short, endVerse);
    OuterCharacters(start, full, endVerse);
    ParseOfRange(registry, start, short, scheme, bounds);
    ParseOfRange(registry, start, full, scheme, bounds);
    assert short != "" && full != "";
    EndsAgree(registry, start, short, full, book, chapter, verse, endChapter, endVerse);
    OutcomesAgree(registry, start, short, full, start + "-" + short, start + "-" + full, scheme, bounds);
  }

  lemma {:induction false} OutcomesAgree(registry: Registry, start: string, short: string, full: string, first: string,
                                         second: string, scheme: string, bounds: Option<VerseBounds>)
    requires short != "" && full != ""
    requires FullPoint(registry, start).Success? ==>
               EndPoint(registry, FullPoint(registry, start).value, short)
               == EndPoint(registry, FullPoint(registry, start).value, full)
    ensures SameOutcome(RangeOutcome(registry, first, start, short, scheme, bounds),
                        RangeOutcome(registry, second, start, full, scheme, bounds))
  {
  }

  lemma {:induction false} EndsAgree(registry: Registry, start: string, short: string, full: string, book: string,
                                     chapter: string, verse: string, endChapter: string, endVerse: string)
    requires BookLike(book) && Digits(chapter) && Digits(endChapter) && Digits(endVerse)
    requires Split(start, '.') == [book, chapter, verse]
    requires full == book + "." + endChapter + "." + endVerse
    requires short == endChapter + "." + endVerse || (short == endVerse && endChapter == chapter)
    ensures FullPoint(registry, start).Success? ==>
              EndPoint(registry, FullPoint(registry, start).value, short)
              == EndPoint(registry, FullPoint(registry, start).value, full)
  {
    if FullPoint(registry, start).Success? {
      var point := FullPoint(registry, start).value;
      assert point.alias == book && point.chapter == ParseNat(chapter);
      ShortEndsMeanFullEnds(registry, book, endChapter, endVerse, point);
    }
  }

  lemma {:induction false} ShortEnds(chapter: string, verse: string)
    requires Digits(chapter) && Digits(verse)
    ensures Split(verse, '.') == [verse] && '-' !in verse
    ensures Split(chapter + "." + verse, '.') == [chapter, verse] && '-' !in chapter + "." + verse
  {
    DigitsAvoid(chapter, '.');
    DigitsAvoid(chapter, '-');
    DigitsAvoid(verse, '.');
    DigitsAvoid(verse, '-');
    SplitWhole(verse, '.');
    SplitAt(chapter, '.', verse);
    assert chapter + ['.'] + verse == chapter + "." + verse;
  }

  lemma {:induction false} OuterCharacters(start: string, end: string, tail: string)
    requires start != "" && (IsDigit(start[0]) || IsLetter(start[0]))
    requires Digits(tail) && |end| >= |tail| && end[|end| - |tail|..] == tail
    ensures !HasOuterSpace(start + "-" + end)
  {
    var s := start + "-" + end;
    assert s[0] == start[0] && s[|s| - 1] == end[|end| - 1] == tail[|tail| - 1];
  }
}
