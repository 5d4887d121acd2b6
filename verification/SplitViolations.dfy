/** The leakage check of src/echoes/benchmarks/splits.py over finished assignments. */
module SplitViolations {
  import opened Wrappers
  import opened Ordering
  import opened BenchmarkRows

  /** The dictionary of non-excluded partitions; a later row for the same relationship wins. */
  ghost function PartitionsOf(assignments: seq<AssignmentRow>): map<Id, Partition> {
    if assignments == [] then map[]
    else
      var last := assignments[|assignments| - 1];
      var before := PartitionsOf(assignments[..|assignments| - 1]);
      if last.partition == Excluded then before else before[last.relationshipId := last.partition]
  }

  /** A configured membership row of an eligible relationship. */
  ghost predicate Placed(partitions: map<Id, Partition>, row: GroupRow, types: set<string>) {
    row.groupType in types && row.relationshipId in partitions
  }

  ghost predicate PlacedIn(partitions: map<Id, Partition>, row: GroupRow, types: set<string>, p: Partition) {
    Placed(partitions, row, types) && partitions[row.relationshipId] == p
  }

  /** A configured group whose eligible members lie in two partitions. */
  ghost predicate Crosses(partitions: map<Id, Partition>, groups: set<GroupRow>, types: set<string>, g: Id) {
    exists p, q :: p in groups && q in groups && p.groupId == g && q.groupId == g &&
      Placed(partitions, p, types) && Placed(partitions, q, types) &&
      partitions[p.relationshipId] != partitions[q.relationshipId]
  }

  /** The reported groups are exactly the crossing ones, in identifier order without repeats. */
  ghost predicate IsViolationReport(report: seq<Id>, assignments: seq<AssignmentRow>, groups: set<GroupRow>,
                                    types: set<string>) {
    Ascending(report) && forall g :: g in report <==> Crosses(PartitionsOf(assignments), groups, types, g)
  }

  method CollectPartitions(assignments: seq<AssignmentRow>) returns (partitions: map<Id, Partition>)
    ensures partitions == PartitionsOf(assignments)
  {
    partitions := map[];
    for i := 0 to |assignments|
      invariant partitions == PartitionsOf(assignments[..i])
    {
      assert assignments[..i + 1][..i] == assignments[..i];
      if assignments[i].partition != Excluded {
        partitions := partitions[assignments[i].relationshipId := assignments[i].partition];
      }
    }
    assert assignments[..|assignments|] == assignments;
  }

  ghost predicate Seen(partitions: map<Id, Partition>, groups: seq<GroupRow>, types: set<string>, g: Id, p: Partition) {
    exists k :: 0 <= k < |groups| && groups[k].groupId == g && PlacedIn(partitions, groups[k], types, p)
  }

  lemma {:induction false} SeenSnoc(partitions: map<Id, Partition>, groups: seq<GroupRow>, types: set<string>, i: nat,
                                    g: Id, p: Partition)
    requires i < |groups|
    ensures Seen(partitions, groups[..i + 1], types, g, p) <==>
              Seen(partitions, groups[..i], types, g, p)
              || (groups[i].groupId == g && PlacedIn(partitions, groups[i], types, p))
  {
    var before, after := groups[..i], groups[..i + 1];
    assert after[i] == groups[i];
    if Seen(partitions, before, types, g, p) {
      var k :| 0 <= k < |before| && before[k].groupId == g && PlacedIn(partitions, before[k], types, p);
      assert after[k] == before[k];
    }
    if Seen(partitions, after, types, g, p) {
      var k :| 0 <= k < |after| && after[k].groupId == g && PlacedIn(partitions, after[k], types, p);
      if k < i { assert before[k] == after[k]; }
    }
  }

  ghost predicate Records(byGroup: map<Id, set<Partition>>, g: Id, p: Partition) {
    g in byGroup && p in byGroup[g]
  }

  /** `by_group[row.group].add(partition)`, with the keys in insertion order. */
  method GroupPartitions(partitions: map<Id, Partition>, groups: seq<GroupRow>, types: set<string>)
    returns (order: seq<Id>, byGroup: map<Id, set<Partition>>)
    ensures forall g :: g in order <==> g in byGroup
    ensures forall g, p :: Records(byGroup, g, p) <==> Seen(partitions, groups, types, g, p)
  {
    order, byGroup := [], map[];
    for i := 0 to |groups|
      invariant forall g :: g in order <==> g in byGroup
      invariant forall g, p :: Records(byGroup, g, p) <==> Seen(partitions, groups[..i], types, g, p)
    {
      var row := groups[i];
      ghost var before := byGroup;
      if row.groupType in types && row.relationshipId in partitions {
        var known := if row.groupId in byGroup then byGroup[row.groupId] else {};
        if row.groupId !in byGroup {
          order := order + [row.groupId];
        }
        byGroup := byGroup[row.groupId := known + {partitions[row.relationshipId]}];
      }
      forall g, p ensures Records(byGroup, g, p) <==> Seen(partitions, groups[..i + 1], types, g, p) {
        SeenSnoc(partitions, groups, types, i, g, p);
        assert Records(before, g, p) <==> Seen(partitions, groups[..i], types, g, p);
      }
    }
    assert groups[..|groups|] == groups;
  }

  lemma {:induction false} SeveralMeansTwo(s: set<Partition>)
    ensures |s| > 1 <==> exists p, q :: p in s && q in s && p != q
  {
    if |s| > 1 {
      var p :| p in s;
      assert |s - {p}| > 0;
      var q :| q in s - {p};
    }
    if p, q :| p in s && q in s && p != q {
      assert {p, q} <= s;
      assert |{p, q} + (s - {p, q})| == |{p, q}| + |s - {p, q}|;
      assert {p, q} + (s - {p, q}) == s;
    }
  }

  lemma {:induction false} CrossesIsSeenTwice(partitions: map<Id, Partition>, groups: seq<GroupRow>, types: set<string>,
                                              g: Id)
    ensures Crosses(partitions, Elements(groups), types, g) <==>
              exists p, q :: p != q && Seen(partitions, groups, types, g, p) && Seen(partitions, groups, types, g, q)
  {
    if Crosses(partitions, Elements(groups), types, g) {
      var a, b :| a in Elements(groups) && b in Elements(groups) && a.groupId == g && b.groupId == g &&
        Placed(partitions, a, types) && Placed(partitions, b, types) &&
        partitions[a.relationshipId] != partitions[b.relationshipId];
      var i :| 0 <= i < |groups| && groups[i] == a;
      var j :| 0 <= j < |groups| && groups[j] == b;
      assert Seen(partitions, groups, types, g, partitions[a.relationshipId]);
      assert Seen(partitions, groups, types, g, partitions[b.relationshipId]);
    }
    if p, q :| p != q && Seen(partitions, groups, types, g, p) && Seen(partitions, groups, types, g, q) {
      var i :| 0 <= i < |groups| && groups[i].groupId == g && PlacedIn(partitions, groups[i], types, p);
      var j :| 0 <= j < |groups| && groups[j].groupId == g && PlacedIn(partitions, groups[j], types, q);
      assert groups[i] in Elements(groups) && groups[j] in Elements(groups);
    }
  }

  method SplitLeakageViolations(assignments: seq<AssignmentRow>, groups: seq<GroupRow>, types: set<string>)
    returns (report: seq<Id>)
    ensures IsViolationReport(report, assignments, Elements(groups), types)
  {
    var partitions := CollectPartitions(assignments);
    var order, byGroup := GroupPartitions(partitions, groups, types);
    var crossing := [];
    for i := 0 to |order|
      invariant forall g :: g in crossing <==> g in order[..i] && g in byGroup && |byGroup[g]| > 1
    {
      assert order[..i + 1] == order[..i] + [order[i]];
      if |byGroup[order[i]]| > 1 {
        crossing := crossing + [order[i]];
      }
    }
    assert order[..|order|] == order;
    report := SortedDistinct(crossing);
    forall g ensures g in report <==> Crosses(partitions, Elements(groups), types, g) {
      assert g in report <==> g in Elements(report);
      assert g in crossing <==> g in Elements(crossing);
      CrossesIsSeenTwice(partitions, groups, types, g);
      if g in byGroup {
        SeveralMeansTwo(byGroup[g]);
        forall p ensures p in byGroup[g] <==> Seen(partitions, groups, types, g, p) {
          assert Records(byGroup, g, p) <==> Seen(partitions, groups, types, g, p);
        }
      } else {
        forall p ensures !Seen(partitions, groups, types, g, p) {
          assert !Records(byGroup, g, p);
        }
      }
    }
  }
}
