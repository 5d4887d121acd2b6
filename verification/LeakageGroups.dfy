/** `iter_leakage_group_rows` of src/echoes/benchmarks/leakage.py: the loop that emits own rows and fills the shared
    keys, the loop over those keys, and the two sweeps. */
module LeakageGroups {
  import opened Wrappers
  import opened Ordering
  import opened BenchmarkRows
  import opened Dictionaries
  import opened LeakageSweep
  import opened LeakageRows

  type SharedKey = (GroupType, string)

  type Shared = map<SharedKey, seq<Id>>

  function InputKey(): Input -> Id { (r: Input) => r.relationshipId }

  function OwnRows(r: Input, identify: Identify): seq<GroupRow> {
    [RowOf(identify, DirectedPair, Label(r.directed), r.relationshipId),
     RowOf(identify, UnorderedPair, Label(r.undirected), r.relationshipId),
     RowOf(identify, CanonicalBookPair, Label(SourceBooks(r)), r.relationshipId)]
  }

  /** The keys under which a relationship is filed, in the views that are not its own. */
  function SharedKeys(r: Input): set<SharedKey> {
    (set d | d in r.duplicates :: (DuplicateRecords, d))
    + (set p | p in r.provenance :: (SourceProvenance, p))
    + (if r.family.Some? then {(Family, r.family.value)} else {})
    + {(SharedEndpoint, r.first.key), (SharedEndpoint, r.second.key)}
    + (set p | p in Elements(r.first.targets) + Elements(r.second.targets) :: (SharedTarget, p))
  }

  lemma {:induction false} SharedKeysAreTexts(r: Input, key: SharedKey)
    ensures key in SharedKeys(r) <==> !IsOwn(key.0) && key.1 in Texts(r, key.0)
  {
  }

  ghost predicate InOwn(row: GroupRow, inputs: set<Input>, identify: Identify) {
    exists r :: r in inputs && row in OwnRows(r, identify)
  }

  /** The filed lists: each key holds exactly its bearers, once each. */
  ghost predicate Files(shared: Shared, inputs: set<Input>) {
    && (forall key, x :: Holds(shared, key, x) <==> !IsOwn(key.0) && Bears(inputs, x, key.0, key.1))
    && (forall key :: key in shared ==> Distinct(shared[key]))
  }

  lemma {:induction false} BearsOneMore(inputs: set<Input>, r: Input, x: Id, t: GroupType, text: string)
    ensures Bears(inputs + {r}, x, t, text) <==>
              Bears(inputs, x, t, text) || (r.relationshipId == x && text in Texts(r, t))
  {
    if r.relationshipId == x && text in Texts(r, t) { assert r in inputs + {r}; }
  }

  /** `shared[key].append(relationship_id)` for every key of one relationship. */
  method FileRelationship(shared: Shared, r: Input, ghost inputs: set<Input>) returns (filed: Shared)
    requires Files(shared, inputs) && forall q :: q in inputs ==> q.relationshipId != r.relationshipId
    ensures Files(filed, inputs + {r})
  {
    filed := shared;
    var remaining := SharedKeys(r);
    while remaining != {}
      invariant remaining <= SharedKeys(r)
      invariant forall key, x :: Holds(filed, key, x) <==>
                  Holds(shared, key, x) || (key in SharedKeys(r) - remaining && x == r.relationshipId)
      invariant forall key :: key in filed ==> Distinct(filed[key])
      decreases remaining
    {
      var key :| key in remaining;
      assert !Holds(shared, key, r.relationshipId);
      filed := Append(filed, key, r.relationshipId);
      remaining := remaining - {key};
    }
    FiledIsFiles(shared, filed, r, inputs);
  }

  lemma {:induction false} FiledIsFiles(shared: Shared, filed: Shared, r: Input, inputs: set<Input>)
    requires Files(shared, inputs)
    requires forall key, x :: Holds(filed, key, x) <==>
               Holds(shared, key, x) || (key in SharedKeys(r) && x == r.relationshipId)
    requires forall key :: key in filed ==> Distinct(filed[key])
    ensures Files(filed, inputs + {r})
  {
    forall key: SharedKey, x
      ensures Holds(filed, key, x) <==> !IsOwn(key.0) && Bears(inputs + {r}, x, key.0, key.1)
    {
      SharedKeysAreTexts(r, key);
      BearsOneMore(inputs, r, x, key.0, key.1);
    }
  }

  /** The loop over the relationships. */
  method CollectRows(ordered: seq<Input>, identify: Identify) returns (rows: seq<GroupRow>, shared: Shared)
    requires UniqueOn(ordered, InputKey())
    ensures forall row :: row in rows <==> InOwn(row, Elements(ordered), identify)
    ensures Files(shared, Elements(ordered))
  {
    rows, shared := [], map[];
    for i := 0 to |ordered|
      invariant forall row :: row in rows <==> InOwn(row, Elements(ordered[..i]), identify)
      invariant Files(shared, Elements(ordered[..i]))
    {
      var r := ordered[i];
      NextInput(ordered, i);
      NextOwnRows(Elements(ordered[..i]), r, rows, identify);
      rows := rows + OwnRows(r, identify);
      shared := FileRelationship(shared, r, Elements(ordered[..i]));
    }
    assert ordered[..|ordered|] == ordered;
  }

  lemma {:induction false} NextInput(ordered: seq<Input>, i: nat)
    requires i < |ordered| && UniqueOn(ordered, InputKey())
    ensures Elements(ordered[..i + 1]) == Elements(ordered[..i]) + {ordered[i]}
    ensures forall q :: q in Elements(ordered[..i]) ==> q.relationshipId != ordered[i].relationshipId
  {
    assert ordered[..i + 1] == ordered[..i] + [ordered[i]];
    forall q | q in Elements(ordered[..i])
      ensures q.relationshipId != ordered[i].relationshipId
    {
      var k :| 0 <= k < i && ordered[k] == q;
      assert InputKey()(ordered[k]) != InputKey()(ordered[i]);
    }
  }

  lemma {:induction false} NextOwnRows(inputs: set<Input>, r: Input, rows: seq<GroupRow>, identify: Identify)
    requires forall row :: row in rows <==> InOwn(row, inputs, identify)
    ensures forall row :: row in rows + OwnRows(r, identify) <==> InOwn(row, inputs + {r}, identify)
  {
    forall row
      ensures row in rows + OwnRows(r, identify) <==> InOwn(row, inputs + {r}, identify)
    {
      assert r in inputs + {r};
    }
  }

  // ----- Shared keys -----

  ghost predicate InShared(row: GroupRow, shared: Shared, keys: set<SharedKey>, identify: Identify) {
    exists key :: key in keys && key in shared && row.relationshipId in shared[key]
      && (|shared[key]| >= 2 || KeepsSingles(key.0))
      && row == RowOf(identify, key.0, Label(key.1), row.relationshipId)
  }

  /** The rows of one group, `_group_rows`. */
  function GroupRows(identify: Identify, t: GroupType, key: GroupKey, members: seq<Id>): (rows: seq<GroupRow>)
    ensures forall row :: row in rows <==>
              row.relationshipId in members && row == RowOf(identify, t, key, row.relationshipId)
  {
    if members == [] then []
    else [RowOf(identify, t, key, members[0])] + GroupRows(identify, t, key, members[1..])
  }

  /** The loop over the shared keys. */
  method SharedRows(shared: Shared, identify: Identify) returns (rows: seq<GroupRow>)
    ensures forall row :: row in rows <==> InShared(row, shared, shared.Keys, identify)
  {
    rows := [];
    var remaining := shared.Keys;
    while remaining != {}
      invariant remaining <= shared.Keys
      invariant forall row :: row in rows <==> InShared(row, shared, shared.Keys - remaining, identify)
      decreases remaining
    {
      var key :| key in remaining;
      NextSharedKey(shared, shared.Keys - remaining, key, identify);
      assert shared.Keys - (remaining - {key}) == shared.Keys - remaining + {key};
      if |shared[key]| >= 2 || KeepsSingles(key.0) {
        rows := rows + GroupRows(identify, key.0, Label(key.1), shared[key]);
      }
      remaining := remaining - {key};
    }
    assert shared.Keys - remaining == shared.Keys;
  }

  lemma {:induction false} NextSharedKey(shared: Shared, keys: set<SharedKey>, key: SharedKey, identify: Identify)
    requires key in shared
    ensures forall row :: InShared(row, shared, keys + {key}, identify) <==>
              || InShared(row, shared, keys, identify)
              || ((|shared[key]| >= 2 || KeepsSingles(key.0))
                  && row in GroupRows(identify, key.0, Label(key.1), shared[key]))
  {
    forall row
      ensures InShared(row, shared, keys + {key}, identify) <==>
                || InShared(row, shared, keys, identify)
                || ((|shared[key]| >= 2 || KeepsSingles(key.0))
                    && row in GroupRows(identify, key.0, Label(key.1), shared[key]))
    {
      assert key in keys + {key};
    }
  }

  /** A distinct list has a second member exactly when some member differs from a given one. */
  lemma {:induction false} SecondMember(s: seq<Id>, x: Id)
    requires Distinct(s) && x in s
    ensures |s| >= 2 <==> exists y :: y != x && y in s
  {
    if |s| >= 2 {
      assert s[0] != s[1];
      assert s[0] in s && s[1] in s;
    }
  }

  lemma {:induction false} SharedRowsAreLabels(shared: Shared, inputs: set<Input>, identify: Identify, row: GroupRow)
    requires Files(shared, inputs)
    ensures InShared(row, shared, shared.Keys, identify) <==>
              exists t :: !IsOverlap(t) && !IsOwn(t) && InLabels(row, inputs, identify, t)
  {
    var x := row.relationshipId;
    if InShared(row, shared, shared.Keys, identify) {
      var key: SharedKey :| key in shared && x in shared[key] && (|shared[key]| >= 2 || KeepsSingles(key.0))
        && row == RowOf(identify, key.0, Label(key.1), x);
      KeyEmits(shared, inputs, key, x);
      assert InLabels(row, inputs, identify, key.0);
    }
    if t :| !IsOverlap(t) && !IsOwn(t) && InLabels(row, inputs, identify, t) {
      var text :| LabelEmits(inputs, t, text, x) && row == RowOf(identify, t, Label(text), x);
      var key := (t, text);
      assert Holds(shared, key, x);
      KeyEmits(shared, inputs, key, x);
      assert key in shared.Keys;
    }
  }

  lemma {:induction false} KeyEmits(shared: Shared, inputs: set<Input>, key: SharedKey, x: Id)
    requires Files(shared, inputs) && Holds(shared, key, x)
    ensures !IsOwn(key.0) && !IsOverlap(key.0)
    ensures LabelEmits(inputs, key.0, key.1, x) <==> |shared[key]| >= 2 || KeepsSingles(key.0)
  {
    SecondMember(shared[key], x);
    assert forall y :: y in shared[key] <==> Holds(shared, key, y);
  }

  lemma {:induction false} OwnRowHasView(r: Input, identify: Identify, row: GroupRow)
    returns (t: GroupType, text: string)
    requires row in OwnRows(r, identify)
    ensures IsOwn(t) && text in Texts(r, t) && row == RowOf(identify, t, Label(text), r.relationshipId)
  {
    var own := OwnRows(r, identify);
    if row == own[0] {
      t, text := DirectedPair, r.directed;
    } else if row == own[1] {
      t, text := UnorderedPair, r.undirected;
    } else {
      t, text := CanonicalBookPair, SourceBooks(r);
    }
  }

  lemma {:induction false} OwnViewHasRow(r: Input, identify: Identify, t: GroupType, text: string)
    requires IsOwn(t) && text in Texts(r, t)
    ensures RowOf(identify, t, Label(text), r.relationshipId) in OwnRows(r, identify)
  {
    var own := OwnRows(r, identify);
    var row := RowOf(identify, t, Label(text), r.relationshipId);
    assert row == own[if t == DirectedPair then 0 else if t == UnorderedPair then 1 else 2];
  }

  lemma {:induction false} OwnRowsAreLabels(inputs: set<Input>, identify: Identify, row: GroupRow)
    ensures InOwn(row, inputs, identify) <==> exists t :: IsOwn(t) && InLabels(row, inputs, identify, t)
  {
    var x := row.relationshipId;
    if InOwn(row, inputs, identify) {
      var r :| r in inputs && row in OwnRows(r, identify);
      var t, text := OwnRowHasView(r, identify, row);
      assert LabelEmits(inputs, t, text, x);
      assert InLabels(row, inputs, identify, t);
    }
    if t :| IsOwn(t) && InLabels(row, inputs, identify, t) {
      var text :| LabelEmits(inputs, t, text, x) && row == RowOf(identify, t, Label(text), x);
      var r :| r in inputs && r.relationshipId == x && text in Texts(r, t);
      OwnViewHasRow(r, identify, t, text);
    }
  }

  // ----- Sweeps -----

  /** The rows of the emitted overlap groups. */
  function SweepRows(groups: seq<OverlapGroup>, t: GroupType, identify: Identify): seq<GroupRow> {
    if groups == [] then []
    else
      GroupRows(identify, t, Place(groups[0].book, groups[0].ordinal), groups[0].members)
      + SweepRows(groups[1..], t, identify)
  }

  lemma {:induction false} SweepRowsContents(groups: seq<OverlapGroup>, t: GroupType, identify: Identify, row: GroupRow)
    ensures row in SweepRows(groups, t, identify) <==>
              exists n :: 0 <= n < |groups| && row.relationshipId in groups[n].members
                && row == RowOf(identify, t, Place(groups[n].book, groups[n].ordinal), row.relationshipId)
  {
    if groups != [] {
      SweepRowsContents(groups[1..], t, identify, row);
      assert forall n :: 0 <= n < |groups| - 1 ==> groups[1..][n] == groups[n + 1];
      if n :| 0 <= n < |groups| && row.relationshipId in groups[n].members
              && row == RowOf(identify, t, Place(groups[n].book, groups[n].ordinal), row.relationshipId) {
        if n > 0 { assert groups[1..][n - 1] == groups[n]; }
      }
    }
  }

  lemma {:induction false} SweepRowsAreSweep(groups: seq<OverlapGroup>, intervals: set<Interval>, t: GroupType,
                                             identify: Identify, row: GroupRow)
    requires IsSweep(groups, intervals)
    ensures row in SweepRows(groups, t, identify) <==> InSweep(row, intervals, identify, t)
  {
    var x := row.relationshipId;
    SweepRowsContents(groups, t, identify, row);
    if n :|
        0 <= n < |groups| && x in groups[n].members
        && row == RowOf(identify, t, Place(groups[n].book, groups[n].ordinal), x)
    {
      MembersAreStabbed(groups, intervals, n, x);
    }
    if book, ordinal :| PlaceEmits(intervals, book, ordinal, x) && row == RowOf(identify, t, Place(book, ordinal), x) {
      var n := PlaceHasGroup(groups, intervals, book, ordinal, x);
    }
  }

  lemma {:induction false} MembersAreStabbed(groups: seq<OverlapGroup>, intervals: set<Interval>, n: nat, x: Id)
    requires IsSweep(groups, intervals) && n < |groups| && x in groups[n].members
    ensures PlaceEmits(intervals, groups[n].book, groups[n].ordinal, x)
  {
    assert HoldsStabbed(groups[n], intervals);
    EnumerationHolds(Stabbed(intervals, groups[n].book, groups[n].ordinal), x);
  }

  lemma {:induction false} PlaceHasGroup(groups: seq<OverlapGroup>, intervals: set<Interval>, book: string,
                                         ordinal: int, x: Id)
    returns (n: nat)
    requires IsSweep(groups, intervals) && PlaceEmits(intervals, book, ordinal, x)
    ensures n < |groups| && groups[n].book == book && groups[n].ordinal == ordinal && x in groups[n].members
  {
    var i :| i in intervals && i.book == book && i.start == ordinal;
    assert HasGroup(groups, i.book, i.start);
    n :| 0 <= n < |groups| && groups[n].book == book && groups[n].ordinal == ordinal;
    assert HoldsStabbed(groups[n], intervals);
    EnumerationHolds(Stabbed(intervals, book, ordinal), x);
  }

  /** The intervals of a swept view, in relationship order. */
  function ListIntervals(ordered: seq<Input>, t: GroupType): seq<Interval> {
    if ordered == [] then []
    else
      EndpointIntervals(ordered[0].first, ordered[0].relationshipId, t)
      + EndpointIntervals(ordered[0].second, ordered[0].relationshipId, t)
      + ListIntervals(ordered[1..], t)
  }

  function EndpointIntervals(e: LeakageEndpoint, x: Id, t: GroupType): seq<Interval> {
    if t == EndpointOverlap then [SourceInterval(e, x)]
    else if e.range.Some? then [Interval(e.range.value.book, e.range.value.start, e.range.value.end, x)]
    else []
  }

  lemma {:induction false} ListedIntervals(ordered: seq<Input>, t: GroupType)
    requires IsOverlap(t)
    ensures Elements(ListIntervals(ordered, t)) == AllIntervals(Elements(ordered), t)
  {
    if ordered == [] {
      assert AllIntervals(Elements(ordered), t) == {};
    } else {
      var r, rest := ordered[0], ordered[1..];
      ListedIntervals(rest, t);
      OwnIntervals(r, t);
      AllIntervalsOneMore(Elements(rest), r, t);
      assert Elements(ordered) == Elements(rest) + {r} by { assert ordered == [r] + rest; }
    }
  }

  lemma {:induction false} OwnIntervals(r: Input, t: GroupType)
    requires IsOverlap(t)
    ensures Elements(EndpointIntervals(r.first, r.relationshipId, t) + EndpointIntervals(r.second, r.relationshipId, t))
            == Intervals(r, t)
  {
  }

  lemma {:induction false} AllIntervalsOneMore(inputs: set<Input>, r: Input, t: GroupType)
    ensures AllIntervals(inputs + {r}, t) == AllIntervals(inputs, t) + Intervals(r, t)
  {
  }

  method SweepView(ordered: seq<Input>, t: GroupType, identify: Identify) returns (rows: seq<GroupRow>)
    requires IsOverlap(t) && AllValid(Elements(ordered))
    ensures forall row :: row in rows <==> InSweep(row, AllIntervals(Elements(ordered), t), identify, t)
  {
    var intervals := ListIntervals(ordered, t);
    ListedIntervals(ordered, t);
    IntervalsAreOrdered(Elements(ordered), t);
    assert forall k :: 0 <= k < |intervals| ==> intervals[k] in Elements(intervals);
    var groups := AtomicOverlapGroups(intervals);
    rows := SweepRows(groups, t, identify);
    forall row
      ensures row in rows <==> InSweep(row, AllIntervals(Elements(ordered), t), identify, t)
    {
      SweepRowsAreSweep(groups, AllIntervals(Elements(ordered), t), t, identify, row);
    }
  }

  // ----- All views -----

  lemma {:induction false} SortedTellsDuplicates(ordered: seq<Input>)
    requires SortedOn(ordered, InputKey())
    ensures UniqueOn(ordered, InputKey()) <==>
              forall i :: 0 <= i < |ordered| - 1 ==> ordered[i].relationshipId != ordered[i + 1].relationshipId
  {
    if forall i :: 0 <= i < |ordered| - 1 ==> ordered[i].relationshipId != ordered[i + 1].relationshipId {
      forall i, j | 0 <= i < j < |ordered|
        ensures InputKey()(ordered[i]) != InputKey()(ordered[j])
      {
        NeighboursTellApart(ordered, i, j);
      }
    } else {
      var i :| 0 <= i < |ordered| - 1 && ordered[i].relationshipId == ordered[i + 1].relationshipId;
      assert InputKey()(ordered[i]) == InputKey()(ordered[i + 1]);
    }
  }

  lemma {:induction false} NeighboursTellApart(ordered: seq<Input>, i: nat, j: nat)
    requires SortedOn(ordered, InputKey()) && i < j < |ordered|
    requires ordered[i].relationshipId != ordered[i + 1].relationshipId
    ensures ordered[i].relationshipId != ordered[j].relationshipId
  {
    var a, b, c := ordered[i].relationshipId, ordered[i + 1].relationshipId, ordered[j].relationshipId;
    assert AtMost(InputKey()(ordered[i]), InputKey()(ordered[i + 1]));
    assert j == i + 1 || AtMost(InputKey()(ordered[i + 1]), InputKey()(ordered[j]));
    if a == c { AtMostIsAntisymmetric(a, b); }
  }

  /** `iter_leakage_group_rows`: refuses exactly repeated relationships, and else yields the rows of every view. */
  method LeakageGroupRows(relationships: seq<Input>, identify: Identify)
    returns (r: Result<seq<GroupRow>, LeakageError>)
    requires AllValid(Elements(relationships))
    ensures r.Failure? <==> !UniqueOn(relationships, InputKey())
    ensures r.Success? ==> IsLeakageView(Elements(r.value), Elements(relationships), identify)
  {
    var ordered := SortOn(relationships, InputKey());
    PermutationKeepsElements(ordered, relationships);
    SortedTellsDuplicates(ordered);
    if UniqueOn(relationships, InputKey()) { UniqueOnPermutation(relationships, ordered, InputKey()); }
    if UniqueOn(ordered, InputKey()) { UniqueOnPermutation(ordered, relationships, InputKey()); }
    var i := 0;
    while i + 1 < |ordered|
      invariant 0 <= i && (ordered != [] ==> i < |ordered|)
      invariant forall k :: 0 <= k < i && k + 1 < |ordered| ==>
                ordered[k].relationshipId != ordered[k + 1].relationshipId
    {
      if ordered[i].relationshipId == ordered[i + 1].relationshipId {
        return Failure(DuplicateRelationshipIds);
      }
      i := i + 1;
    }
    var own, shared := CollectRows(ordered, identify);
    var labelled := SharedRows(shared, identify);
    var source := SweepView(ordered, EndpointOverlap, identify);
    var target := SweepView(ordered, TargetOverlap, identify);
    RowsAreView(own, labelled, source, target, shared, Elements(relationships), identify);
    r := Success(own + labelled + source + target);
  }

  lemma {:induction false} RowsAreView(own: seq<GroupRow>, labelled: seq<GroupRow>, source: seq<GroupRow>,
                                       target: seq<GroupRow>, shared: Shared, inputs: set<Input>, identify: Identify)
    requires Files(shared, inputs)
    requires forall row :: row in own <==> InOwn(row, inputs, identify)
    requires forall row :: row in labelled <==> InShared(row, shared, shared.Keys, identify)
    requires forall row :: row in source <==>
             InSweep(row, AllIntervals(inputs, EndpointOverlap), identify, EndpointOverlap)
    requires forall row :: row in target <==> InSweep(row, AllIntervals(inputs, TargetOverlap), identify, TargetOverlap)
    ensures IsLeakageView(Elements(own + labelled + source + target), inputs, identify)
  {
    var rows := own + labelled + source + target;
    forall row
      ensures row in Elements(rows) <==>
                || (exists t :: !IsOverlap(t) && InLabels(row, inputs, identify, t))
                || InSweep(row, AllIntervals(inputs, EndpointOverlap), identify, EndpointOverlap)
                || InSweep(row, AllIntervals(inputs, TargetOverlap), identify, TargetOverlap)
    {
      OwnRowsAreLabels(inputs, identify, row);
      SharedRowsAreLabels(shared, inputs, identify, row);
      LabelsAreOwnOrShared(row, inputs, identify);
      assert row in Elements(rows) <==> row in own || row in labelled || row in source || row in target;
    }
  }

  lemma {:induction false} LabelsAreOwnOrShared(row: GroupRow, inputs: set<Input>, identify: Identify)
    ensures (exists t :: !IsOverlap(t) && InLabels(row, inputs, identify, t)) <==>
              || (exists t :: IsOwn(t) && InLabels(row, inputs, identify, t))
              || (exists t :: !IsOverlap(t) && !IsOwn(t) && InLabels(row, inputs, identify, t))
  {
  }
}
