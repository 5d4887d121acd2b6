/** The one loader of the passage index (src/echoes/benchmarks/mapping.py): it reads chapter and verse out of each
    passage's reference label, so labels determine coordinates in every index the pipeline builds. */
module PassageLoading {
  import opened Wrappers
  import opened Ordering
  import opened Coordinates
  import opened Mapping
  import opened MappingDecision

  /** One row of the verse query. */
  datatype PassageRow = PassageRow(
    passageId: Id, corpus: Corpus, profile: Profile, book: string, reference: string, disputed: bool,
    referenceGap: bool)

  /** `s.split(c, maxsplit=1)` where two parts are demanded. */
  function Cut(s: string, c: char): Option<(string, string)> {
    if s == "" then None
    else if s[0] == c then Some(("", s[1..]))
    else match Cut(s[1..], c)
      case None => None
      case Some((left, right)) => Some(([s[0]] + left, right))
  }

  /** The coordinate a label `book chapter:verse` names; `number` is `int`, for numerals that are not negative. */
  function ReadLabel(reference: string, number: string -> Option<nat>): Option<Coordinate> {
    match Cut(reference, ' ')
    case None => None
    case Some((_, coordinate)) =>
      match Cut(coordinate, ':')
      case None => None
      case Some((chapter, verse)) =>
        if number(chapter).None? || number(verse).None? then None
        else Some((number(chapter).value, number(verse).value))
  }

  /** The cut is at the first separator. */
  lemma {:induction false} CutExactlyWhen(s: string, c: char, left: string, right: string)
    ensures Cut(s, c) == Some((left, right)) <==> c !in left && s == left + [c] + right
  {
    if s != [] && s[0] != c {
      assert s == [s[0]] + s[1..];
      if Cut(s, c) == Some((left, right)) {
        CutExactlyWhen(s[1..], c, left[1..], right);
        assert left == [s[0]] + left[1..];
      }
      if c !in left && s == left + [c] + right {
        assert left != [] && left[0] == s[0];
        assert s[1..] == left[1..] + [c] + right;
        CutExactlyWhen(s[1..], c, left[1..], right);
        assert left == [s[0]] + left[1..];
      }
    } else if s != [] {
      assert s == [] + [c] + s[1..];
      assert s == left + [c] + right && left != [] ==> left[0] == s[0];
    }
  }

  /** A label reads as chapter and verse exactly when it is a book, a space, and two numerals around a colon. */
  lemma {:induction false} LabelReadsExactlyWhen(reference: string, number: string -> Option<nat>, c: Coordinate)
    ensures ReadLabel(reference, number) == Some(c) <==>
              exists book, chapter, verse ::
                && reference == book + " " + chapter + ":" + verse && ' ' !in book && ':' !in chapter
                && number(chapter) == Some(c.0) && number(verse) == Some(c.1)
  {
    if ReadLabel(reference, number) == Some(c) {
      var (book, coordinate) := Cut(reference, ' ').value;
      var (chapter, verse) := Cut(coordinate, ':').value;
      CutExactlyWhen(reference, ' ', book, coordinate);
      CutExactlyWhen(coordinate, ':', chapter, verse);
      assert reference == book + " " + chapter + ":" + verse;
    }
    if book, chapter, verse :|
      && reference == book + " " + chapter + ":" + verse && ' ' !in book && ':' !in chapter
      && number(chapter) == Some(c.0) && number(verse) == Some(c.1)
    {
      var coordinate := chapter + [':'] + verse;
      assert reference == book + [' '] + coordinate;
      CutExactlyWhen(reference, ' ', book, coordinate);
      CutExactlyWhen(coordinate, ':', chapter, verse);
    }
  }

  function TargetOf(row: PassageRow, c: Coordinate): Target {
    Target(row.passageId, (row.corpus, row.profile, row.book), c.0, c.1, row.reference, row.disputed, row.referenceGap)
  }

  /** Every target stands where its label says. */
  ghost predicate LabelledBy(targets: seq<Target>, number: string -> Option<nat>) {
    forall t | t in targets :: ReadLabel(t.reference, number) == Some(At(t))
  }

  datatype LoadError = InvalidLabel(reference: string) | NoTargets | DuplicateTargetKey

  /** `from_duckdb`, once the rows are read. */
  method FromRows(rows: seq<PassageRow>, number: string -> Option<nat>)
    returns (r: Result<PassageReferenceIndex, LoadError>, ghost targets: seq<Target>)
    ensures r.Success? ==> fresh(r.value) && r.value.Describes(targets) && LabelledBy(targets, number)
    ensures r.Success? ==>
              && |targets| == |rows|
              && (forall k | 0 <= k < |rows| :: targets[k] == TargetOf(rows[k], At(targets[k])))
    ensures r.Failure? ==>
              match r.error
              case InvalidLabel(reference) =>
                ReadLabel(reference, number).None? && exists k :: 0 <= k < |rows| && rows[k].reference == reference
              case NoTargets => rows == []
              case DuplicateTargetKey => |targets| == |rows| && LabelledBy(targets, number) && DuplicateTarget(targets)
  {
    var read: seq<Target> := [];
    targets := [];
    for i := 0 to |rows|
      invariant |read| == i && LabelledBy(read, number)
      invariant forall k | 0 <= k < i :: read[k] == TargetOf(rows[k], At(read[k]))
    {
      var c := ReadLabel(rows[i].reference, number);
      if c.None? {
        return Failure(InvalidLabel(rows[i].reference)), targets;
      }
      read := read + [TargetOf(rows[i], c.value)];
    }
    targets := read;
    if read == [] {
      return Failure(NoTargets), targets;
    }
    var index := new PassageReferenceIndex();
    var ok := index.Load(read);
    if !ok {
      return Failure(DuplicateTargetKey), targets;
    }
    r := Success(index);
  }

  lemma {:induction false} LoadedLabelsDetermine(index: PassageReferenceIndex, all: seq<Target>, endpoint: Endpoint,
                                                 profile: Profile, corpus: Corpus, number: string -> Option<nat>)
    requires index.Describes(all) && LabelledBy(all, number)
    ensures LabelsDetermine(SpanOf(index, endpoint, profile, corpus), SpanOf(index, endpoint, EditionComplete, corpus))
  {
    SpanIsLoaded(index, all, endpoint, profile, corpus);
    SpanIsLoaded(index, all, endpoint, EditionComplete, corpus);
    var targets, edition := SpanOf(index, endpoint, profile, corpus), SpanOf(index, endpoint, EditionComplete, corpus);
    forall i, j | 0 <= i < |targets| && 0 <= j < |edition| && targets[i].reference == edition[j].reference
      ensures At(targets[i]) == At(edition[j])
    {
      assert targets[i] in all && edition[j] in all;
      assert Some(At(targets[i])) == Some(At(edition[j]));
    }
  }

  lemma {:induction false} SpanIsLoaded(index: PassageReferenceIndex, all: seq<Target>, endpoint: Endpoint,
                                        profile: Profile, corpus: Corpus)
    requires index.Describes(all)
    ensures forall t :: t in SpanOf(index, endpoint, profile, corpus) ==> t in all
  {
    var stream := (corpus, profile, endpoint.book);
    SpanFilterMembers(index.Targets(stream), endpoint.start, endpoint.end);
    forall t | t in SpanOf(index, endpoint, profile, corpus)
      ensures t in all
    {
      IndexedMembers(index, all, stream, t);
    }
  }

  /** Over every index the loader builds, a provisional same-chapter range is every verse from start to end in order,
      for every profile: the case the decision leaves open cannot come up. */
  lemma {:induction false} LoadedProvisionalIsEveryVerse(index: PassageReferenceIndex, all: seq<Target>,
                                                         endpoint: Endpoint, profile: Profile, corpus: Corpus,
                                                         number: string -> Option<nat>)
    requires index.Describes(all) && LabelledBy(all, number)
    requires endpoint.isRange && endpoint.start.0 == endpoint.end.0
    requires DecidedBy(index, endpoint, profile, corpus).0 == MappedProvisional
    ensures EveryVerse(DecidedBy(index, endpoint, profile, corpus).1, endpoint.start, endpoint.end)
  {
    var targets, edition := SpanOf(index, endpoint, profile, corpus), SpanOf(index, endpoint, EditionComplete, corpus);
    IndexSuppliesSpanInputs(index, all, endpoint, profile, corpus);
    LoadedLabelsDetermine(index, all, endpoint, profile, corpus, number);
    ProvisionalIsEveryVerse(endpoint, profile, targets, edition);
  }
}
