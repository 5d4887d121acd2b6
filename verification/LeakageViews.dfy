/** What each text-keyed leakage view holds together, in the fields of the relationships: a view shares a group between
    two relationships exactly when they agree in what it is named after. */
module LeakageViews {
  import opened Wrappers
  import opened Ordering
  import opened BenchmarkRows
  import opened Connectivity
  import opened Splits
  import opened ConflictExclusion
  import opened PipelineSplits
  import opened References
  import opened LeakageInputs
  import opened LeakageRows
  import opened LeakageGroups
  import opened PipelineLeakage
  import opened LeakageSafety
  import Text

  // ----- Leakage inputs -----

  /** The two inputs agree in what the view is named after; of the book pair see below. */
  ghost predicate Agree(r: Input, s: Input, t: GroupType) {
    match t
    case DirectedPair => r.directed == s.directed
    case UnorderedPair => r.undirected == s.undirected
    case DuplicateRecords => exists d :: d in r.duplicates && d in s.duplicates
    case SourceProvenance => exists p :: p in r.provenance && p in s.provenance
    case Family => r.family.Some? && r.family == s.family
    case SharedEndpoint =>
      || r.first.key == s.first.key || r.first.key == s.second.key
      || r.second.key == s.first.key || r.second.key == s.second.key
    case SharedTarget => exists id :: IsTarget(r, id) && IsTarget(s, id)
    case _ => false
  }

  predicate IsTarget(r: Input, id: Id) { id in r.first.targets || id in r.second.targets }

  ghost predicate SomeAgree(inputs: set<Input>, x: Id, y: Id, t: GroupType) {
    exists r, s :: r in inputs && s in inputs && r.relationshipId == x && s.relationshipId == y && Agree(r, s, t)
  }

  predicate IsFieldView(t: GroupType) { !IsOverlap(t) && t != CanonicalBookPair }

  lemma {:induction false} AgreeMeansCommonText(r: Input, s: Input, t: GroupType)
    requires IsFieldView(t)
    ensures Agree(r, s, t) <==> exists text :: text in Texts(r, t) && text in Texts(s, t)
  {
    match t
    case DirectedPair => assert r.directed in Texts(r, t);
    case UnorderedPair => assert r.undirected in Texts(r, t);
    case DuplicateRecords => assert Texts(r, t) == r.duplicates && Texts(s, t) == s.duplicates;
    case SourceProvenance => assert Texts(r, t) == r.provenance && Texts(s, t) == s.provenance;
    case Family => if r.family.Some? { assert r.family.value in Texts(r, t); }
    case SharedEndpoint => assert r.first.key in Texts(r, t) && r.second.key in Texts(r, t);
    case SharedTarget =>
      assert forall id :: (IsTarget(r, id) <==> id in Texts(r, t)) && (IsTarget(s, id) <==> id in Texts(s, t));
  }

  lemma {:induction false} RelatedMeansAgree(inputs: set<Input>, t: GroupType, x: Id, y: Id)
    requires IsFieldView(t)
    ensures Related(inputs, t, x, y) <==> SomeAgree(inputs, x, y, t)
  {
    if Related(inputs, t, x, y) {
      var text :| Bears(inputs, x, t, text) && Bears(inputs, y, t, text);
      var r :| r in inputs && r.relationshipId == x && text in Texts(r, t);
      var s :| s in inputs && s.relationshipId == y && text in Texts(s, t);
      AgreeMeansCommonText(r, s, t);
    }
    if SomeAgree(inputs, x, y, t) {
      var r, s :| r in inputs && s in inputs && r.relationshipId == x && s.relationshipId == y && Agree(r, s, t);
      AgreeMeansCommonText(r, s, t);
      var text :| text in Texts(r, t) && text in Texts(s, t);
      assert Bears(inputs, x, t, text) && Bears(inputs, y, t, text);
    }
  }

  /** Two relationships share a group of such a view exactly when their inputs agree in it. */
  lemma {:induction false} TogetherExactlyWhenAgreeing(rows: set<GroupRow>, inputs: set<Input>, identify: Identify,
                                                       t: GroupType, x: Id, y: Id)
    requires IsLeakageView(rows, inputs, identify) && AllValid(inputs) && KeysTellApart(identify) && x != y
    requires IsFieldView(t)
    ensures Together(rows, t, x, y) <==> SomeAgree(inputs, x, y, t)
  {
    ViewIsRelation(rows, inputs, identify, t, x, y);
    RelatedMeansAgree(inputs, t, x, y);
  }

  // ----- Book pairs -----

  /** The unordered pairs of source books are the same. */
  predicate SameBooks(r: Input, s: Input) {
    || (r.first.book == s.first.book && r.second.book == s.second.book)
    || (r.first.book == s.second.book && r.second.book == s.first.book)
  }

  ghost predicate SomeSameBooks(inputs: set<Input>, x: Id, y: Id) {
    exists r, s :: r in inputs && s in inputs && r.relationshipId == x && s.relationshipId == y && SameBooks(r, s)
  }

  /** Neither book's name holds the separator. */
  predicate IsPlain(r: Input) { '|' !in r.first.book && '|' !in r.second.book }

  ghost predicate PlainBooks(inputs: set<Input>) {
    forall r :: r in inputs ==> IsPlain(r)
  }

  lemma {:induction false} JoinedApart(a: string, b: string, c: string, d: string)
    requires '|' !in a && '|' !in b && '|' !in c && '|' !in d && a + "|" + b == c + "|" + d
    ensures a == c && b == d
  {
    Text.SplitAt(a, '|', b);
    Text.SplitAt(c, '|', d);
    Text.SplitWhole(b, '|');
    Text.SplitWhole(d, '|');
    assert a + ['|'] + b == a + "|" + b && c + ['|'] + d == c + "|" + d;
    assert [a] + [b] == [a, b] && [c] + [d] == [c, d];
  }

  lemma {:induction false} SameBooksSameText(r: Input, s: Input)
    ensures SameBooks(r, s) ==> SourceBooks(r) == SourceBooks(s)
    ensures IsPlain(r) && IsPlain(s) && SourceBooks(r) == SourceBooks(s) ==> SameBooks(r, s)
  {
    LessIsTotal(r.first.book, r.second.book);
    LessIsTotal(s.first.book, s.second.book);
    if Less(r.first.book, r.second.book) { LessIsAsymmetric(r.first.book, r.second.book); }
    if Less(s.first.book, s.second.book) { LessIsAsymmetric(s.first.book, s.second.book); }
    if IsPlain(r) && IsPlain(s) && SourceBooks(r) == SourceBooks(s) {
      var (a, b) := Ordered(r);
      var (c, d) := Ordered(s);
      JoinedApart(a, b, c, d);
    }
  }

  function Ordered(r: Input): (string, string) {
    if Less(r.second.book, r.first.book) then (r.second.book, r.first.book) else (r.first.book, r.second.book)
  }

  /** Relationships between the same two books share a book-pair group; and, as long as no book's name holds the
      separator, only those do. */
  lemma {:induction false} TogetherExactlyWhenSameBooks(rows: set<GroupRow>, inputs: set<Input>, identify: Identify,
                                                        x: Id, y: Id)
    requires IsLeakageView(rows, inputs, identify) && AllValid(inputs) && KeysTellApart(identify) && x != y
    ensures SomeSameBooks(inputs, x, y) ==> Together(rows, CanonicalBookPair, x, y)
    ensures PlainBooks(inputs) && Together(rows, CanonicalBookPair, x, y) ==> SomeSameBooks(inputs, x, y)
  {
    ViewIsRelation(rows, inputs, identify, CanonicalBookPair, x, y);
    if SomeSameBooks(inputs, x, y) {
      var r, s :| r in inputs && s in inputs && r.relationshipId == x && s.relationshipId == y && SameBooks(r, s);
      SameBooksSameText(r, s);
      assert Bears(inputs, x, CanonicalBookPair, SourceBooks(r)) && Bears(inputs, y, CanonicalBookPair, SourceBooks(r));
    }
    if PlainBooks(inputs) && Related(inputs, CanonicalBookPair, x, y) {
      var text :| Bears(inputs, x, CanonicalBookPair, text) && Bears(inputs, y, CanonicalBookPair, text);
      var r :| r in inputs && r.relationshipId == x && text in Texts(r, CanonicalBookPair);
      var s :| s in inputs && s.relationshipId == y && text in Texts(s, CanonicalBookPair);
      SameBooksSameText(r, s);
    }
  }

  /** The separator in a book's name would bring different pairs together. */
  lemma {:induction false} SeparatorJoinsPairs()
    ensures var e := (book: string) => LeakageEndpoint("", book, 1, 1, [], None);
            var r := Input("x", "", "", e("a"), e("b|c"), {}, {}, None);
            var s := Input("y", "", "", e("a|b"), e("c"), {}, {}, None);
            SourceBooks(r) == SourceBooks(s) && !SameBooks(r, s)
  {
    assert Less("a", "b|c") && Less("a|b", "c");
    assert !Less("b|c", "a") && !Less("c", "a|b");
    assert "a" + "|" + "b|c" == "a|b" + "|" + "c";
  }

  // ----- Mapped relationships -----

  /** A parsed endpoint is keyed by its normalized form, any other by the reference as it was written. */
  predicate HasKey(e: MappedEndpoint, text: string) {
    match e.endpoint
    case Parsed(span) => text == Normalized(span)
    case Unresolved(reference) => text == reference
  }

  predicate MapsTo(e: MappedEndpoint, id: Id) { e.endpoint.Parsed? && id in e.targets }

  /** The two relationships agree in what the view is named after.  No family and no provenance is ever supplied, and
      records count only where there are two. */
  ghost predicate Match(r: MappedRelationship, s: MappedRelationship, t: GroupType) {
    match t
    case DirectedPair => r.directed == s.directed
    case UnorderedPair => r.undirected == s.undirected
    case DuplicateRecords =>
      |r.sourceRecords| > 1 && |s.sourceRecords| > 1 && exists d :: d in r.sourceRecords && d in s.sourceRecords
    case SharedEndpoint =>
      exists text ::
        (HasKey(r.first, text) || HasKey(r.second, text)) && (HasKey(s.first, text) || HasKey(s.second, text))
    case SharedTarget =>
      exists id :: (MapsTo(r.first, id) || MapsTo(r.second, id)) && (MapsTo(s.first, id) || MapsTo(s.second, id))
    case _ => false
  }

  ghost predicate SomeMatch(relationships: seq<MappedRelationship>, x: Id, y: Id, t: GroupType) {
    exists k, l :: 0 <= k < |relationships| && 0 <= l < |relationships|
      && relationships[k].relationshipId == x && relationships[l].relationshipId == y
      && Match(relationships[k], relationships[l], t)
  }

  lemma {:induction false} RenderedKey(e: MappedEndpoint, c: Places, digest: string -> nat, text: string)
    requires IsKnown(e.targets, c)
    ensures HasKey(e, text) <==> Render(e, c, digest).key == text
  {
  }

  lemma {:induction false} RenderedTarget(e: MappedEndpoint, c: Places, digest: string -> nat, id: Id)
    requires IsKnown(e.targets, c)
    ensures MapsTo(e, id) <==> id in Render(e, c, digest).targets
  {
  }

  lemma {:induction false} MatchMeansAgree(r: MappedRelationship, s: MappedRelationship, c: Places,
                                           digest: string -> nat, t: GroupType)
    requires IsBuildable(r, c, digest) && IsBuildable(s, c, digest) && IsFieldView(t)
    ensures Match(r, s, t) <==> Agree(InputOf(r, c, digest), InputOf(s, c, digest), t)
  {
    var p, q := InputOf(r, c, digest), InputOf(s, c, digest);
    forall text
      ensures HasKey(r.first, text) <==> p.first.key == text
      ensures HasKey(r.second, text) <==> p.second.key == text
      ensures HasKey(s.first, text) <==> q.first.key == text
      ensures HasKey(s.second, text) <==> q.second.key == text
    {
      RenderedKey(r.first, c, digest, text);
      RenderedKey(r.second, c, digest, text);
      RenderedKey(s.first, c, digest, text);
      RenderedKey(s.second, c, digest, text);
    }
    forall id
      ensures MapsTo(r.first, id) || MapsTo(r.second, id) <==> IsTarget(p, id)
      ensures MapsTo(s.first, id) || MapsTo(s.second, id) <==> IsTarget(q, id)
    {
      RenderedTarget(r.first, c, digest, id);
      RenderedTarget(r.second, c, digest, id);
      RenderedTarget(s.first, c, digest, id);
      RenderedTarget(s.second, c, digest, id);
    }
    if t == SharedEndpoint { KeysMatch(r, s, c, digest); }
  }

  lemma {:induction false} KeysMatch(r: MappedRelationship, s: MappedRelationship, c: Places, digest: string -> nat)
    requires IsBuildable(r, c, digest) && IsBuildable(s, c, digest)
    ensures Match(r, s, SharedEndpoint) <==> Agree(InputOf(r, c, digest), InputOf(s, c, digest), SharedEndpoint)
  {
    var p := InputOf(r, c, digest);
    assert HasKey(r.first, p.first.key) && HasKey(r.second, p.second.key);
  }

  lemma {:induction false} MatchingInputsAgree(inputs: seq<Input>, relationships: seq<MappedRelationship>, c: Places,
                                               digest: string -> nat, k: nat, l: nat, t: GroupType)
    requires AreInputs(inputs, relationships, c, digest) && IsFieldView(t) && k < |inputs| && l < |inputs|
    ensures inputs[k] in Elements(inputs) && inputs[l] in Elements(inputs)
    ensures inputs[k].relationshipId == relationships[k].relationshipId
    ensures inputs[l].relationshipId == relationships[l].relationshipId
    ensures Match(relationships[k], relationships[l], t) <==> Agree(inputs[k], inputs[l], t)
  {
    MatchMeansAgree(relationships[k], relationships[l], c, digest, t);
  }

  lemma {:induction false} MatchIsAgreement(inputs: seq<Input>, relationships: seq<MappedRelationship>, c: Places,
                                            digest: string -> nat, x: Id, y: Id, t: GroupType)
    requires AreInputs(inputs, relationships, c, digest) && IsFieldView(t) && SomeMatch(relationships, x, y, t)
    ensures SomeAgree(Elements(inputs), x, y, t)
  {
    var k, l :| 0 <= k < |relationships| && 0 <= l < |relationships|
      && relationships[k].relationshipId == x && relationships[l].relationshipId == y
      && Match(relationships[k], relationships[l], t);
    MatchingInputsAgree(inputs, relationships, c, digest, k, l, t);
  }

  lemma {:induction false} AgreementIsMatch(inputs: seq<Input>, relationships: seq<MappedRelationship>, c: Places,
                                            digest: string -> nat, x: Id, y: Id, t: GroupType)
    requires AreInputs(inputs, relationships, c, digest) && IsFieldView(t) && SomeAgree(Elements(inputs), x, y, t)
    ensures SomeMatch(relationships, x, y, t)
  {
    var r, s :| r in Elements(inputs) && s in Elements(inputs) && r.relationshipId == x && s.relationshipId == y
      && Agree(r, s, t);
    var k, l := IndexOf(inputs, r), IndexOf(inputs, s);
    MatchingInputsAgree(inputs, relationships, c, digest, k, l, t);
  }

  ghost function IndexOf(inputs: seq<Input>, r: Input): (k: nat)
    requires r in Elements(inputs)
    ensures k < |inputs| && inputs[k] == r
  {
    var k :| 0 <= k < |inputs| && inputs[k] == r;
    k
  }

  lemma {:induction false} SomeMatchMeansSomeAgree(inputs: seq<Input>, relationships: seq<MappedRelationship>,
                                                   c: Places, digest: string -> nat, x: Id, y: Id, t: GroupType)
    requires AreInputs(inputs, relationships, c, digest) && IsFieldView(t)
    ensures SomeMatch(relationships, x, y, t) <==> SomeAgree(Elements(inputs), x, y, t)
  {
    if SomeMatch(relationships, x, y, t) { MatchIsAgreement(inputs, relationships, c, digest, x, y, t); }
    if SomeAgree(Elements(inputs), x, y, t) { AgreementIsMatch(inputs, relationships, c, digest, x, y, t); }
  }

  /** From the relationships to the leakage rows: two relationships share a group of a view exactly when they agree in
      what it is named after. */
  lemma {:induction false} RowsTogetherExactlyWhenMatching(groups: seq<GroupRow>,
                                                           relationships: seq<MappedRelationship>,
                                                           streams: seq<EditionStream>, digest: string -> nat,
                                                           identify: Identify, t: GroupType, x: Id, y: Id)
    requires AreRowsOf(groups, relationships, streams, digest, identify) && KeysTellApart(identify)
    requires x != y && IsFieldView(t)
    ensures Together(Elements(groups), t, x, y) <==> SomeMatch(relationships, x, y, t)
  {
    var inputs: seq<Input> :|
      && AreInputs(inputs, relationships, TargetPlaces(streams), digest)
      && AllValid(Elements(inputs)) && IsLeakageView(Elements(groups), Elements(inputs), identify);
    TogetherExactlyWhenAgreeing(Elements(groups), Elements(inputs), identify, t, x, y);
    SomeMatchMeansSomeAgree(inputs, relationships, TargetPlaces(streams), digest, x, y, t);
  }

  /** A field view under the name it is configured by. */
  function ViewNamed(name: string): Option<GroupType> {
    if name == "exact_directed_pair" then Some(DirectedPair)
    else if name == "exact_unordered_pair" then Some(UnorderedPair)
    else if name == "duplicate_source_records" then Some(DuplicateRecords)
    else if name == "shared_source_provenance" then Some(SourceProvenance)
    else if name == "relationship_family" then Some(Family)
    else if name == "shared_endpoint" then Some(SharedEndpoint)
    else if name == "shared_target_passage" then Some(SharedTarget)
    else None
  }

  lemma {:induction false} NameOfView(name: string)
    requires ViewNamed(name).Some?
    ensures IsFieldView(ViewNamed(name).value) && Name(ViewNamed(name).value) == name
  {
  }

  /** Some group of the named type has rows for both. */
  ghost predicate ShareGroup(groups: seq<GroupRow>, name: string, x: Id, y: Id) {
    exists g :: GroupRow(g, x, name) in groups && GroupRow(g, y, name) in groups
  }

  /** Under its configured name, each view brings exactly matching relationships together. */
  lemma {:induction false} GroupsInConfiguredTerms(groups: seq<GroupRow>, relationships: seq<MappedRelationship>,
                                                   streams: seq<EditionStream>, digest: string -> nat,
                                                   identify: Identify, name: string, x: Id, y: Id)
    requires AreRowsOf(groups, relationships, streams, digest, identify) && KeysTellApart(identify)
    requires x != y && ViewNamed(name).Some?
    ensures ShareGroup(groups, name, x, y) <==> SomeMatch(relationships, x, y, ViewNamed(name).value)
  {
    NameOfView(name);
    RowsTogetherExactlyWhenMatching(groups, relationships, streams, digest, identify, ViewNamed(name).value, x, y);
    assert forall row :: row in groups <==> row in Elements(groups);
  }

  /** The book of a parsed endpoint is its span's, and any other has none of its own. */
  function BookOf(e: MappedEndpoint): string {
    match e.endpoint
    case Parsed(span) => span.start.canonical
    case Unresolved(_) => "UNRESOLVED"
  }

  /** Both relationships run between the same two books. */
  predicate BetweenSameBooks(r: MappedRelationship, s: MappedRelationship) {
    || (BookOf(r.first) == BookOf(s.first) && BookOf(r.second) == BookOf(s.second))
    || (BookOf(r.first) == BookOf(s.second) && BookOf(r.second) == BookOf(s.first))
  }

  lemma {:induction false} RenderedBooks(r: MappedRelationship, s: MappedRelationship, c: Places, digest: string -> nat)
    requires IsBuildable(r, c, digest) && IsBuildable(s, c, digest)
    ensures BetweenSameBooks(r, s) <==> SameBooks(InputOf(r, c, digest), InputOf(s, c, digest))
    ensures IsPlain(InputOf(r, c, digest)) <==> '|' !in BookOf(r.first) && '|' !in BookOf(r.second)
  {
  }

  /** Relationships between the same books share a book-pair group; where no book's name holds the separator, only
      those do. */
  lemma {:induction false} RowsTogetherExactlyWhenSameBooks(groups: seq<GroupRow>,
                                                            relationships: seq<MappedRelationship>,
                                                            streams: seq<EditionStream>, digest: string -> nat,
                                                            identify: Identify, x: Id, y: Id)
    requires AreRowsOf(groups, relationships, streams, digest, identify) && KeysTellApart(identify) && x != y
    requires forall k :: 0 <= k < |relationships| ==>
               '|' !in BookOf(relationships[k].first) && '|' !in BookOf(relationships[k].second)
    ensures Together(Elements(groups), CanonicalBookPair, x, y) <==>
              exists k, l :: 0 <= k < |relationships| && 0 <= l < |relationships|
                && relationships[k].relationshipId == x && relationships[l].relationshipId == y
                && BetweenSameBooks(relationships[k], relationships[l])
  {
    var c := TargetPlaces(streams);
    var inputs: seq<Input> :|
      && AreInputs(inputs, relationships, c, digest)
      && AllValid(Elements(inputs)) && IsLeakageView(Elements(groups), Elements(inputs), identify);
    forall k | 0 <= k < |inputs|
      ensures IsPlain(inputs[k]) && inputs[k] in Elements(inputs)
      ensures inputs[k].relationshipId == relationships[k].relationshipId
    {
      RenderedBooks(relationships[k], relationships[k], c, digest);
    }
    TogetherExactlyWhenSameBooks(Elements(groups), Elements(inputs), identify, x, y);
    forall k, l | 0 <= k < |inputs| && 0 <= l < |inputs|
      ensures BetweenSameBooks(relationships[k], relationships[l]) <==> SameBooks(inputs[k], inputs[l])
    {
      RenderedBooks(relationships[k], relationships[l], c, digest);
    }
    if SomeSameBooks(Elements(inputs), x, y) {
      var r, s :| r in Elements(inputs) && s in Elements(inputs) && r.relationshipId == x && s.relationshipId == y
        && SameBooks(r, s);
      var k, l := IndexOf(inputs, r), IndexOf(inputs, s);
      assert BetweenSameBooks(relationships[k], relationships[l]);
    }
  }

  // ----- What is kept apart -----

  /** Relationships that survive in different partitions agree in nothing that an enforced view is named after. */
  lemma {:induction false} SurvivorsDoNotMatch(split: seq<SplitRelationship>, groups: seq<GroupRow>, c: Configured,
                                               fraction: Fraction, pairGroup: Id -> Id, i: nat, j: nat,
                                               relationships: seq<MappedRelationship>, streams: seq<EditionStream>,
                                               digest: string -> nat, identify: Identify, t: GroupType)
    requires Parted(Frame(split, groups, c, fraction, pairGroup), i, j)
    requires ComeFrom(groups, relationships, streams, digest, identify) && Name(t) in c.enforced && IsFieldView(t)
    ensures !SomeMatch(relationships, split[i].relationshipId, split[j].relationshipId, t)
  {
    var inputs: seq<Input> :|
      AreInputs(inputs, relationships, TargetPlaces(streams), digest) && Carries(groups, Elements(inputs), identify);
    SurvivorsAreUnrelated(split, groups, c, fraction, pairGroup, i, j, Elements(inputs), identify, t);
    RelatedMeansAgree(Elements(inputs), t, split[i].relationshipId, split[j].relationshipId);
    SomeMatchMeansSomeAgree(inputs, relationships, TargetPlaces(streams), digest, split[i].relationshipId,
                            split[j].relationshipId, t);
  }

  /** Under union-find, relationships that agree in an effective view get one partition. */
  lemma {:induction false} MatchingSharePartition(relationships: seq<SplitRelationship>, groups: seq<GroupRow>,
                                                  definition: SplitDefinition, assignments: seq<AssignmentRow>,
                                                  mapped: seq<MappedRelationship>, streams: seq<EditionStream>,
                                                  digest: string -> nat, identify: Identify, t: GroupType, k: nat,
                                                  x: Id, l: nat, y: Id)
    requires IsSplitResult(Success(assignments), relationships, groups, definition)
    requires ComeFrom(groups, mapped, streams, digest, identify) && IsFieldView(t)
    requires Name(t) in EffectiveGroupTypes(definition)
    requires Assigns(assignments, k, x) && Assigns(assignments, l, y) && x != y && SomeMatch(mapped, x, y, t)
    ensures assignments[k].partition == assignments[l].partition
  {
    var inputs: seq<Input> :|
      AreInputs(inputs, mapped, TargetPlaces(streams), digest) && Carries(groups, Elements(inputs), identify);
    SomeMatchMeansSomeAgree(inputs, mapped, TargetPlaces(streams), digest, x, y, t);
    RelatedMeansAgree(Elements(inputs), t, x, y);
    RelatedSharePartition(relationships, groups, definition, assignments, Elements(inputs), identify, t, k, x, l, y);
  }
}
