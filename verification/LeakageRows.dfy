/** The leakage membership rows of src/echoes/benchmarks/leakage.py: one view per group type, from exact pair
    identities over shared keys to the interval sweeps over source references and over mapped targets. */
module LeakageRows {
  import opened Wrappers
  import opened Ordering
  import opened BenchmarkRows
  import opened Dictionaries
  import opened LeakageSweep

  /** What a group is keyed by within its view: a text, or a place `book|ordinal` where a sweep found an overlap. */
  datatype GroupKey = Label(text: string) | Place(book: string, ordinal: int)

  /** `_group_id`, the digest of a view and a key; the method is a function of the view. */
  type Identify = (GroupType, GroupKey) -> Id

  datatype TargetRange = TargetRange(book: string, start: int, end: int)

  datatype LeakageEndpoint = LeakageEndpoint(
    key: string, book: string, start: int, end: int, targets: seq<Id>, range: Option<TargetRange>)
  {
    /** What the dataclass checks about its ordinals. */
    predicate Valid() {
      && 1 <= start <= end
      && (range.Some? ==> 1 <= range.value.start <= range.value.end)
    }
  }

  datatype Input = Input(
    relationshipId: Id, directed: string, undirected: string, first: LeakageEndpoint, second: LeakageEndpoint,
    duplicates: set<string>, provenance: set<string>, family: Option<string>)
  {
    predicate Valid() { first.Valid() && second.Valid() }
  }

  datatype LeakageError = DuplicateRelationshipIds

  // ----- The views -----

  predicate IsOwn(t: GroupType) { t in {DirectedPair, UnorderedPair, CanonicalBookPair} }

  predicate IsOverlap(t: GroupType) { t in {EndpointOverlap, TargetOverlap} }

  /** Views whose groups are emitted even for one member. */
  predicate KeepsSingles(t: GroupType) { t in {DuplicateRecords, Family} }

  /** `"|".join(sorted(...))` of the two source books. */
  function SourceBooks(r: Input): string {
    if Less(r.second.book, r.first.book) then r.second.book + "|" + r.first.book else r.first.book + "|" + r.second.book
  }

  /** The keys a relationship has in a view that is keyed by text. */
  function Texts(r: Input, t: GroupType): set<string> {
    match t
    case DirectedPair => {r.directed}
    case UnorderedPair => {r.undirected}
    case CanonicalBookPair => {SourceBooks(r)}
    case DuplicateRecords => r.duplicates
    case SourceProvenance => r.provenance
    case Family => if r.family.Some? then {r.family.value} else {}
    case SharedEndpoint => {r.first.key, r.second.key}
    case SharedTarget => Elements(r.first.targets) + Elements(r.second.targets)
    case EndpointOverlap => {}
    case TargetOverlap => {}
  }

  function SourceInterval(e: LeakageEndpoint, x: Id): Interval { Interval(e.book, e.start, e.end, x) }

  function TargetIntervals(e: LeakageEndpoint, x: Id): set<Interval> {
    match e.range
    case None => {}
    case Some(range) => {Interval(range.book, range.start, range.end, x)}
  }

  /** The intervals a relationship has in a view that is swept. */
  function Intervals(r: Input, t: GroupType): set<Interval> {
    match t
    case EndpointOverlap => {SourceInterval(r.first, r.relationshipId), SourceInterval(r.second, r.relationshipId)}
    case TargetOverlap => TargetIntervals(r.first, r.relationshipId) + TargetIntervals(r.second, r.relationshipId)
    case _ => {}
  }

  ghost predicate Bears(inputs: set<Input>, x: Id, t: GroupType, text: string) {
    exists r :: r in inputs && r.relationshipId == x && text in Texts(r, t)
  }

  ghost function AllIntervals(inputs: set<Input>, t: GroupType): set<Interval> {
    set r, i | r in inputs && i in Intervals(r, t) :: i
  }

  /** A text-keyed group has a row for each bearer, unless it has but one and its view drops those. */
  ghost predicate LabelEmits(inputs: set<Input>, t: GroupType, text: string, x: Id) {
    && Bears(inputs, x, t, text)
    && (IsOwn(t) || KeepsSingles(t) || exists y :: y != x && Bears(inputs, y, t, text))
  }

  ghost predicate PlaceEmits(intervals: set<Interval>, book: string, ordinal: int, x: Id) {
    && IsStart(intervals, book, ordinal)
    && |Stabbed(intervals, book, ordinal)| >= 2 && x in Stabbed(intervals, book, ordinal)
  }

  function RowOf(identify: Identify, t: GroupType, key: GroupKey, x: Id): GroupRow {
    GroupRow(identify(t, key), x, Name(t))
  }

  ghost predicate InLabels(row: GroupRow, inputs: set<Input>, identify: Identify, t: GroupType) {
    exists text :: LabelEmits(inputs, t, text, row.relationshipId)
      && row == RowOf(identify, t, Label(text), row.relationshipId)
  }

  ghost predicate InSweep(row: GroupRow, intervals: set<Interval>, identify: Identify, t: GroupType) {
    exists book, ordinal ::
      PlaceEmits(intervals, book, ordinal, row.relationshipId)
        && row == RowOf(identify, t, Place(book, ordinal), row.relationshipId)
  }

  /** The rows of all views, as a set: `build_leakage_groups` sorts them, and no later stage reads their order. */
  ghost predicate IsLeakageView(rows: set<GroupRow>, inputs: set<Input>, identify: Identify) {
    forall row :: row in rows <==>
      || (exists t :: !IsOverlap(t) && InLabels(row, inputs, identify, t))
      || InSweep(row, AllIntervals(inputs, EndpointOverlap), identify, EndpointOverlap)
      || InSweep(row, AllIntervals(inputs, TargetOverlap), identify, TargetOverlap)
  }

  // ----- What the views mean -----

  /** The two relationships have what the view holds together: a common key, or intersecting intervals. */
  ghost predicate Related(inputs: set<Input>, t: GroupType, x: Id, y: Id) {
    if IsOverlap(t) then Overlap(AllIntervals(inputs, t), x, y)
    else exists text :: Bears(inputs, x, t, text) && Bears(inputs, y, t, text)
  }

  /** One group of the view has rows for both. */
  ghost predicate Together(rows: set<GroupRow>, t: GroupType, x: Id, y: Id) {
    exists g :: GroupRow(g, x, Name(t)) in rows && GroupRow(g, y, Name(t)) in rows
  }

  /** No two groups, of one view or of two, have one identifier. */
  ghost predicate KeysTellApart(identify: Identify) {
    forall t, k, u, l :: identify(t, k) == identify(u, l) ==> t == u && k == l
  }

  ghost predicate AllValid(inputs: set<Input>) {
    forall r :: r in inputs ==> r.Valid()
  }

  lemma {:induction false} IntervalsAreOrdered(inputs: set<Input>, t: GroupType)
    requires AllValid(inputs)
    ensures forall i :: i in AllIntervals(inputs, t) ==> i.start <= i.end
  {
  }

  lemma {:induction false} OverlappingAreTogether(rows: set<GroupRow>, inputs: set<Input>, identify: Identify,
                                                  t: GroupType, x: Id, y: Id)
    requires IsLeakageView(rows, inputs, identify) && AllValid(inputs) && x != y && IsOverlap(t)
             && Related(inputs, t, x, y)
    ensures Together(rows, t, x, y)
  {
    var intervals := AllIntervals(inputs, t);
    IntervalsAreOrdered(inputs, t);
    var book, ordinal := OverlapHasPlace(intervals, x, y);
    assert InSweep(RowOf(identify, t, Place(book, ordinal), x), intervals, identify, t);
    assert InSweep(RowOf(identify, t, Place(book, ordinal), y), intervals, identify, t);
  }

  lemma {:induction false} BearersAreTogether(rows: set<GroupRow>, inputs: set<Input>, identify: Identify, t: GroupType,
                                              x: Id, y: Id)
    requires IsLeakageView(rows, inputs, identify) && x != y && !IsOverlap(t) && Related(inputs, t, x, y)
    ensures Together(rows, t, x, y)
  {
    var text :| Bears(inputs, x, t, text) && Bears(inputs, y, t, text);
    assert LabelEmits(inputs, t, text, x) && LabelEmits(inputs, t, text, y);
    assert InLabels(RowOf(identify, t, Label(text), x), inputs, identify, t);
    assert InLabels(RowOf(identify, t, Label(text), y), inputs, identify, t);
  }

  /** Related relationships share a group of the view, whatever the identifiers are: the direction safety needs. */
  lemma {:induction false} RelatedAreTogether(rows: set<GroupRow>, inputs: set<Input>, identify: Identify, t: GroupType,
                                              x: Id, y: Id)
    requires IsLeakageView(rows, inputs, identify) && AllValid(inputs) && x != y && Related(inputs, t, x, y)
    ensures Together(rows, t, x, y)
  {
    if IsOverlap(t) {
      OverlappingAreTogether(rows, inputs, identify, t, x, y);
    } else {
      BearersAreTogether(rows, inputs, identify, t, x, y);
    }
  }

  /** Two overlapping owners are both stabbed where the later of their intervals starts. */
  lemma {:induction false} OverlapHasPlace(intervals: set<Interval>, x: Id, y: Id) returns (book: string, ordinal: int)
    requires x != y && Overlap(intervals, x, y) && forall i :: i in intervals ==> i.start <= i.end
    ensures PlaceEmits(intervals, book, ordinal, x) && PlaceEmits(intervals, book, ordinal, y)
  {
    var a, b :| a in intervals && b in intervals && a.relationshipId == x && b.relationshipId == y && Intersect(a, b);
    var later := if a.start <= b.start then b else a;
    book, ordinal := later.book, later.start;
    assert Covers(a, book, ordinal) && Covers(b, book, ordinal);
    TwoStabbed(intervals, book, ordinal, x, y);
  }

  lemma {:induction false} PlaceMeansOverlap(intervals: set<Interval>, book: string, ordinal: int, x: Id, y: Id)
    requires PlaceEmits(intervals, book, ordinal, x) && PlaceEmits(intervals, book, ordinal, y)
    ensures Overlap(intervals, x, y)
  {
    var a :| a in intervals && Covers(a, book, ordinal) && a.relationshipId == x;
    var b :| b in intervals && Covers(b, book, ordinal) && b.relationshipId == y;
    assert Intersect(a, b);
  }

  /** What one row of the view says, when identifiers tell groups apart. */
  lemma {:induction false} RowMeans(rows: set<GroupRow>, inputs: set<Input>, identify: Identify, t: GroupType,
                                    key: GroupKey, x: Id)
    requires IsLeakageView(rows, inputs, identify) && KeysTellApart(identify) && RowOf(identify, t, key, x) in rows
    ensures key.Label? ==> !IsOverlap(t) && Bears(inputs, x, t, key.text)
    ensures key.Place? ==> IsOverlap(t) && PlaceEmits(AllIntervals(inputs, t), key.book, key.ordinal, x)
  {
    var row := RowOf(identify, t, key, x);
    if u :| !IsOverlap(u) && InLabels(row, inputs, identify, u) {
      var text :| LabelEmits(inputs, u, text, x) && row == RowOf(identify, u, Label(text), x);
      assert identify(t, key) == identify(u, Label(text));
    } else {
      var u := if InSweep(row, AllIntervals(inputs, EndpointOverlap), identify, EndpointOverlap) then EndpointOverlap
               else TargetOverlap;
      var book, ordinal :| PlaceEmits(AllIntervals(inputs, u), book, ordinal, x)
        && row == RowOf(identify, u, Place(book, ordinal), x);
      assert identify(t, key) == identify(u, Place(book, ordinal));
    }
  }

  /** Every row of the view has a view and a key. */
  lemma {:induction false} RowHasKey(rows: set<GroupRow>, inputs: set<Input>, identify: Identify, row: GroupRow)
    returns (t: GroupType, key: GroupKey)
    requires IsLeakageView(rows, inputs, identify) && row in rows
    ensures row == RowOf(identify, t, key, row.relationshipId)
  {
    if u :| !IsOverlap(u) && InLabels(row, inputs, identify, u) {
      var text :| LabelEmits(inputs, u, text, row.relationshipId)
        && row == RowOf(identify, u, Label(text), row.relationshipId);
      t, key := u, Label(text);
    } else {
      t := if InSweep(row, AllIntervals(inputs, EndpointOverlap), identify, EndpointOverlap) then EndpointOverlap
           else TargetOverlap;
      var book, ordinal :| PlaceEmits(AllIntervals(inputs, t), book, ordinal, row.relationshipId)
        && row == RowOf(identify, t, Place(book, ordinal), row.relationshipId);
      key := Place(book, ordinal);
    }
  }

  /** Relationships that share a group of a view are related as the view says. */
  lemma {:induction false} TogetherAreRelated(rows: set<GroupRow>, inputs: set<Input>, identify: Identify, t: GroupType,
                                              x: Id, y: Id)
    requires IsLeakageView(rows, inputs, identify) && KeysTellApart(identify) && Together(rows, t, x, y)
    ensures Related(inputs, t, x, y)
  {
    var g :| GroupRow(g, x, Name(t)) in rows && GroupRow(g, y, Name(t)) in rows;
    var u, key := RowHasKey(rows, inputs, identify, GroupRow(g, x, Name(t)));
    NamesDiffer(t, u);
    assert GroupRow(g, y, Name(t)) == RowOf(identify, t, key, y);
    RowMeans(rows, inputs, identify, t, key, x);
    RowMeans(rows, inputs, identify, t, key, y);
    if key.Place? {
      PlaceMeansOverlap(AllIntervals(inputs, t), key.book, key.ordinal, x, y);
    }
  }

  /** Each view is exactly its relation: two relationships share one of its groups if and only if they have a common
      key, or intersecting intervals. */
  lemma {:induction false} ViewIsRelation(rows: set<GroupRow>, inputs: set<Input>, identify: Identify, t: GroupType,
                                          x: Id, y: Id)
    requires IsLeakageView(rows, inputs, identify) && AllValid(inputs) && KeysTellApart(identify) && x != y
    ensures Together(rows, t, x, y) <==> Related(inputs, t, x, y)
  {
    if Related(inputs, t, x, y) { RelatedAreTogether(rows, inputs, identify, t, x, y); }
    if Together(rows, t, x, y) { TogetherAreRelated(rows, inputs, identify, t, x, y); }
  }

  /** Rows of one identifier are rows of one view. */
  lemma {:induction false} IdentifierNamesView(rows: set<GroupRow>, inputs: set<Input>, identify: Identify, p: GroupRow,
                                               q: GroupRow)
    requires IsLeakageView(rows, inputs, identify) && KeysTellApart(identify)
    requires p in rows && q in rows && p.groupId == q.groupId
    ensures p.groupType == q.groupType
  {
    var t, k := RowHasKey(rows, inputs, identify, p);
    var u, l := RowHasKey(rows, inputs, identify, q);
    assert identify(t, k) == identify(u, l);
  }
}
