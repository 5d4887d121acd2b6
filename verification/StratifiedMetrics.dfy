/** Means over queries and over strata, from src/echoes/benchmarks/metrics.py. */
module StratifiedMetrics {
  import opened Wrappers
  import opened Ordering
  import opened Dictionaries
  import opened RankingMetrics

  ghost predicate FirstRelevant(q: RankedQuery, i: nat)
    requires i < |q.ranked|
  {
    q.ranked[i] in q.relevant && forall j :: 0 <= j < i ==> q.ranked[j] !in q.relevant
  }

  /** `reciprocal_rank`: the first relevant rank decides; nothing relevant scores zero. */
  method ReciprocalRank(q: RankedQuery) returns (r: real)
    ensures (forall i :: 0 <= i < |q.ranked| ==> q.ranked[i] !in q.relevant) ==> r == 0.0
    ensures forall i | 0 <= i < |q.ranked| && FirstRelevant(q, i) :: r == 1.0 / (i + 1) as real
  {
    for i := 0 to |q.ranked|
      invariant forall j :: 0 <= j < i ==> q.ranked[j] !in q.relevant
    {
      if q.ranked[i] in q.relevant {
        return 1.0 / (i + 1) as real;
      }
    }
    r := 0.0;
  }

  // ----- Eligibility -----

  const MISSING_RELEVANCE: string := "missing_relevance"

  function Exclusion(q: RankedQuery): Option<string> {
    if q.exclusionReason.Some? then q.exclusionReason
    else if q.relevant == {} then Some(MISSING_RELEVANCE)
    else None
  }

  function EligibleOf(queries: seq<RankedQuery>): seq<RankedQuery> {
    if queries == [] then []
    else
      var last := queries[|queries| - 1];
      EligibleOf(queries[..|queries| - 1]) + if Exclusion(last).None? then [last] else []
  }

  /** The exclusion Counter, as a multiset of reasons. */
  function ExcludedOf(queries: seq<RankedQuery>): multiset<string> {
    if queries == [] then multiset{}
    else
      var last := queries[|queries| - 1];
      ExcludedOf(queries[..|queries| - 1]) + if Exclusion(last).Some? then multiset{Exclusion(last).value}
        else multiset{}
  }

  /** `_eligible(queries, require_relevance=True)` */
  method Eligible(queries: seq<RankedQuery>) returns (eligible: seq<RankedQuery>, excluded: multiset<string>)
    ensures eligible == EligibleOf(queries) && excluded == ExcludedOf(queries)
  {
    eligible, excluded := [], multiset{};
    for i := 0 to |queries|
      invariant eligible == EligibleOf(queries[..i]) && excluded == ExcludedOf(queries[..i])
    {
      var q := queries[i];
      assert queries[..i + 1][..i] == queries[..i];
      if q.exclusionReason.Some? {
        excluded := excluded + multiset{q.exclusionReason.value};
      } else if q.relevant == {} {
        excluded := excluded + multiset{MISSING_RELEVANCE};
      } else {
        eligible := eligible + [q];
      }
    }
    assert queries[..|queries|] == queries;
  }

  /** A query takes part, as often as it is listed, exactly when it states no reason to be left out and has a relevant
      passage. */
  lemma {:induction false} QueryTakesPartExactlyWhen(queries: seq<RankedQuery>, q: RankedQuery)
    ensures multiset(EligibleOf(queries))[q] ==
            if q.exclusionReason.None? && q.relevant != {} then multiset(queries)[q] else 0
  {
    if queries != [] {
      var front, last := queries[..|queries| - 1], queries[|queries| - 1];
      QueryTakesPartExactlyWhen(front, q);
      assert queries == front + [last];
      assert EligibleOf(queries) == EligibleOf(front) + if Exclusion(last).None? then [last] else [];
    }
  }

  /** The query is left out for the reason: its own, or that it has no relevant passage. */
  predicate IsLeftOutFor(q: RankedQuery, reason: string) {
    || q.exclusionReason == Some(reason)
    || (q.exclusionReason.None? && q.relevant == {} && reason == "missing_relevance")
  }

  /** The places of the queries left out for the reason. */
  function LeftOut(queries: seq<RankedQuery>, reason: string): set<nat> {
    set i: nat | i < |queries| && IsLeftOutFor(queries[i], reason)
  }

  lemma {:induction false} NextLeftOut(front: seq<RankedQuery>, last: RankedQuery, reason: string)
    ensures |LeftOut(front + [last], reason)| == |LeftOut(front, reason)| + if IsLeftOutFor(last, reason) then 1 else 0
  {
    var all := front + [last];
    assert forall i: nat :: i < |front| ==> all[i] == front[i];
    assert LeftOut(all, reason) == LeftOut(front, reason) + if IsLeftOutFor(last, reason) then {|front|} else {};
  }

  lemma {:induction false} NextExcluded(front: seq<RankedQuery>, last: RankedQuery, reason: string)
    ensures ExcludedOf(front + [last])[reason] ==
            ExcludedOf(front)[reason] + if IsLeftOutFor(last, reason) then 1 else 0
  {
    assert (front + [last])[..|front|] == front;
  }

  /** Each reason is counted once for every query that is left out for it. */
  lemma {:induction false} ReasonsAreCounted(queries: seq<RankedQuery>, reason: string)
    ensures ExcludedOf(queries)[reason] == |LeftOut(queries, reason)|
  {
    if queries != [] {
      var front, last := queries[..|queries| - 1], queries[|queries| - 1];
      assert queries == front + [last];
      ReasonsAreCounted(front, reason);
      NextLeftOut(front, last, reason);
      NextExcluded(front, last, reason);
    }
  }

  function Sum(queries: seq<RankedQuery>, f: RankedQuery -> real): real {
    if queries == [] then 0.0 else Sum(queries[..|queries| - 1], f) + f(queries[|queries| - 1])
  }

  datatype MeanResult = MeanResult(value: real, eligible: nat, excluded: multiset<string>)

  /** `_mean_metric`: the mean over eligible queries, zero when there are none. */
  function MeanOf(queries: seq<RankedQuery>, f: RankedQuery -> real): MeanResult {
    var eligible := EligibleOf(queries);
    MeanResult(if eligible == [] then 0.0 else Sum(eligible, f) / |eligible| as real, |eligible|, ExcludedOf(queries))
  }

  method MeanMetric(queries: seq<RankedQuery>, f: RankedQuery -> real) returns (r: MeanResult)
    ensures r == MeanOf(queries, f)
  {
    var eligible, excluded := Eligible(queries);
    var total := 0.0;
    for i := 0 to |eligible|
      invariant total == Sum(eligible[..i], f)
    {
      assert eligible[..i + 1][..i] == eligible[..i];
      total := total + f(eligible[i]);
    }
    assert eligible[..|eligible|] == eligible;
    r := MeanResult(if eligible == [] then 0.0 else total / |eligible| as real, |eligible|, excluded);
  }

  // ----- Strata -----

  /** The members of one stratum, in order. */
  function InStratum(queries: seq<RankedQuery>, value: string): seq<RankedQuery> {
    if queries == [] then []
    else
      var last := queries[|queries| - 1];
      InStratum(queries[..|queries| - 1], value) + if last.stratum == value then [last] else []
  }

  function Strata(queries: seq<RankedQuery>): set<string> {
    set q | q in queries :: q.stratum
  }

  lemma {:induction false} NextQuery(queries: seq<RankedQuery>, i: nat)
    requires i < |queries|
    ensures Strata(queries[..i + 1]) == Strata(queries[..i]) + {queries[i].stratum}
    ensures forall v :: InStratum(queries[..i + 1], v) ==
                        InStratum(queries[..i], v) + if queries[i].stratum == v then [queries[i]] else []
  {
    assert queries[..i + 1][..i] == queries[..i] && queries[..i + 1] == queries[..i] + [queries[i]];
  }

  /** `grouped.setdefault(_stratum(query), []).append(query)` */
  method GroupByStratum(queries: seq<RankedQuery>) returns (grouped: map<string, seq<RankedQuery>>)
    ensures grouped.Keys == Strata(queries)
    ensures forall v :: v in grouped ==> grouped[v] == InStratum(queries, v)
  {
    grouped := map[];
    for i := 0 to |queries|
      invariant grouped.Keys == Strata(queries[..i])
      invariant forall v :: v in grouped ==> grouped[v] == InStratum(queries[..i], v)
      invariant forall v :: v !in grouped ==> InStratum(queries[..i], v) == []
    {
      var q := queries[i];
      NextQuery(queries, i);
      grouped := grouped[q.stratum := (if q.stratum in grouped then grouped[q.stratum] else []) + [q]];
    }
    assert queries[..|queries|] == queries;
  }

  /** Evaluate one metric separately for each stratum, in sorted order of the stratum values. */
  method EvaluateByStratum(queries: seq<RankedQuery>, f: RankedQuery -> real)
    returns (values: seq<string>, results: seq<MeanResult>)
    ensures values == Enumeration(Strata(queries)) && |results| == |values|
    ensures forall k :: 0 <= k < |values| ==> results[k] == MeanOf(InStratum(queries, values[k]), f)
  {
    var grouped := GroupByStratum(queries);
    values := Enumeration(grouped.Keys);
    assert forall k :: 0 <= k < |values| ==> values[k] in Elements(values);
    results := EvaluateGroups(values, grouped, f);
  }

  method EvaluateGroups(values: seq<string>, grouped: map<string, seq<RankedQuery>>, f: RankedQuery -> real)
    returns (results: seq<MeanResult>)
    requires forall k :: 0 <= k < |values| ==> values[k] in grouped
    ensures |results| == |values|
    ensures forall k :: 0 <= k < |values| ==> results[k] == MeanOf(grouped[values[k]], f)
  {
    results := [];
    for i := 0 to |values|
      invariant |results| == i
      invariant forall k :: 0 <= k < i ==> results[k] == MeanOf(grouped[values[k]], f)
    {
      var mean := MeanMetric(grouped[values[i]], f);
      results := results + [mean];
    }
  }

  // ----- Recombination -----

  /** What a list of queries contributes to a mean: the metric total, the count and the exclusion reasons. */
  datatype Tally = Tally(total: real, count: nat, excluded: multiset<string>)

  const NOTHING := Tally(0.0, 0, multiset{})

  function Plus(a: Tally, b: Tally): Tally {
    Tally(a.total + b.total, a.count + b.count, a.excluded + b.excluded)
  }

  function TallyOf(queries: seq<RankedQuery>, f: RankedQuery -> real): Tally {
    Tally(Sum(EligibleOf(queries), f), |EligibleOf(queries)|, ExcludedOf(queries))
  }

  function QueryTally(q: RankedQuery, f: RankedQuery -> real): Tally {
    match Exclusion(q)
    case None => Tally(f(q), 1, multiset{})
    case Some(reason) => Tally(0.0, 0, multiset{reason})
  }

  lemma {:induction false} TallySnoc(queries: seq<RankedQuery>, q: RankedQuery, f: RankedQuery -> real)
    ensures TallyOf(queries + [q], f) == Plus(TallyOf(queries, f), QueryTally(q, f))
  {
    assert (queries + [q])[..|queries|] == queries;
    var eligible := EligibleOf(queries);
    assert (eligible + [q])[..|eligible|] == eligible;
    assert eligible + [] == eligible;
  }

  /** The tallies of the listed strata together. */
  function StrataTally(queries: seq<RankedQuery>, values: seq<string>, f: RankedQuery -> real): Tally {
    if values == [] then NOTHING
    else Plus(TallyOf(InStratum(queries, values[0]), f), StrataTally(queries, values[1..], f))
  }

  lemma {:induction false} EmptyStrata(values: seq<string>, f: RankedQuery -> real)
    ensures StrataTally([], values, f) == NOTHING
  {
    if values != [] {
      EmptyStrata(values[1..], f);
      EmptyTally(values[0], f);
      NothingAdds();
    }
  }

  lemma {:induction false} EmptyTally(value: string, f: RankedQuery -> real)
    ensures TallyOf(InStratum([], value), f) == NOTHING
  {
    assert InStratum([], value) == [];
  }

  lemma {:induction false} NothingAdds()
    ensures Plus(NOTHING, NOTHING) == NOTHING
  {
  }

  lemma {:induction false} SnocStratum(queries: seq<RankedQuery>, q: RankedQuery, value: string)
    ensures InStratum(queries + [q], value) == if q.stratum == value then InStratum(queries, value) + [q]
                                               else InStratum(queries, value)
  {
    assert (queries + [q])[..|queries|] == queries;
    assert InStratum(queries, value) + [] == InStratum(queries, value);
  }

  /** A stratum that does not hold the query is unchanged by it. */
  lemma {:induction false} OtherStrataUnchanged(queries: seq<RankedQuery>, q: RankedQuery, values: seq<string>,
                                                f: RankedQuery -> real)
    requires q.stratum !in values
    ensures StrataTally(queries + [q], values, f) == StrataTally(queries, values, f)
  {
    if values != [] {
      SnocStratum(queries, q, values[0]);
      OtherStrataUnchanged(queries, q, values[1..], f);
    }
  }

  /** A query adds its tally to its one stratum. */
  lemma {:induction false} OneStratumGrows(queries: seq<RankedQuery>, q: RankedQuery, values: seq<string>,
                                           f: RankedQuery -> real)
    requires Distinct(values) && q.stratum in values
    ensures StrataTally(queries + [q], values, f) == Plus(StrataTally(queries, values, f), QueryTally(q, f))
  {
    SnocStratum(queries, q, values[0]);
    if q.stratum == values[0] {
      TallySnoc(InStratum(queries, values[0]), q, f);
      OtherStrataUnchanged(queries, q, values[1..], f);
      PlusMoves(TallyOf(InStratum(queries, values[0]), f), QueryTally(q, f), StrataTally(queries, values[1..], f));
    } else {
      OneStratumGrows(queries, q, values[1..], f);
      PlusMoves(TallyOf(InStratum(queries, values[0]), f), QueryTally(q, f), StrataTally(queries, values[1..], f));
    }
  }

  lemma {:induction false} PlusMoves(a: Tally, b: Tally, c: Tally)
    ensures Plus(Plus(a, b), c) == Plus(Plus(a, c), b) && Plus(a, Plus(c, b)) == Plus(Plus(a, c), b)
  {
  }

  /** Strata partition the queries: totals, counts and exclusion reasons add up to the global ones. */
  lemma {:induction false} StrataAddUp(queries: seq<RankedQuery>, values: seq<string>, f: RankedQuery -> real)
    requires Distinct(values) && forall k :: 0 <= k < |queries| ==> queries[k].stratum in values
    ensures StrataTally(queries, values, f) == TallyOf(queries, f)
  {
    if queries == [] {
      EmptyStrata(values, f);
    } else {
      var front, last := queries[..|queries| - 1], queries[|queries| - 1];
      assert queries == front + [last];
      StrataAddUp(front, values, f);
      OneStratumGrows(front, last, values, f);
      TallySnoc(front, last, f);
    }
  }

  /** A reported mean, read back as the tally it stands for. */
  function MeanTally(r: MeanResult): Tally {
    Tally(r.value * r.eligible as real, r.eligible, r.excluded)
  }

  function MeansTally(results: seq<MeanResult>): Tally {
    if results == [] then NOTHING else Plus(MeanTally(results[0]), MeansTally(results[1..]))
  }

  lemma {:induction false} MeanStandsForTally(queries: seq<RankedQuery>, f: RankedQuery -> real)
    ensures MeanTally(MeanOf(queries, f)) == TallyOf(queries, f)
  {
    var eligible := EligibleOf(queries);
    if eligible != [] {
      CancelQuotient(Sum(eligible, f), |eligible| as real);
    }
  }

  lemma {:induction false} CancelQuotient(a: real, n: real)
    requires n > 0.0
    ensures a / n * n == a
  {
  }

  lemma {:induction false} MeansStandForStrata(queries: seq<RankedQuery>, values: seq<string>, results: seq<MeanResult>,
                                               f: RankedQuery -> real)
    requires |results| == |values|
    requires forall k :: 0 <= k < |values| ==> results[k] == MeanOf(InStratum(queries, values[k]), f)
    ensures MeansTally(results) == StrataTally(queries, values, f)
  {
    if values != [] {
      MeanStandsForTally(InStratum(queries, values[0]), f);
      MeansStandForStrata(queries, values[1..], results[1..], f);
    }
  }

  /** Stratified means recombine: weighted by their eligible counts they give back the global mean, and the
      counts and exclusion reasons add up. */
  lemma {:induction false} StratifiedMeansRecombine(queries: seq<RankedQuery>, values: seq<string>,
                                                    results: seq<MeanResult>, f: RankedQuery -> real)
    requires values == Enumeration(Strata(queries)) && |results| == |values|
    requires forall k :: 0 <= k < |values| ==> results[k] == MeanOf(InStratum(queries, values[k]), f)
    ensures MeansTally(results) == MeanTally(MeanOf(queries, f))
  {
    AscendingIsDistinct(values);
    forall k | 0 <= k < |queries| ensures queries[k].stratum in values {
      assert queries[k].stratum in Strata(queries) && queries[k].stratum in Elements(values);
    }
    StrataAddUp(queries, values, f);
    MeansStandForStrata(queries, values, results, f);
    MeanStandsForTally(queries, f);
  }
}
