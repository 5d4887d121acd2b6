/** The per-query ranking metrics of src/echoes/benchmarks/metrics.py, over real arithmetic. */
module RankingMetrics {
  import opened Wrappers
  import opened Ordering
  import opened Dictionaries

  datatype RankedQuery = RankedQuery(
    queryId: Id,
    ranked: seq<Id>,
    relevant: set<Id>,
    stratum: string,
    exclusionReason: Option<string>)

  datatype MetricError = NonPositiveK

  /** The dataclass check: a ranking lists no passage twice. */
  ghost predicate IsRanking(q: RankedQuery) {
    Distinct(q.ranked)
  }

  /** The discount of each zero-based rank, 1 / log2(rank + 2): positive and strictly decreasing. */
  ghost predicate IsDiscount(w: nat -> real) {
    (forall i: nat :: w(i) > 0.0) && (forall i: nat, j: nat :: i < j ==> w(i) > w(j))
  }

  function Cut(ranked: seq<Id>, k: nat): seq<Id> {
    if k < |ranked| then ranked[..k] else ranked
  }

  function Min(a: nat, b: nat): nat {
    if a < b then a else b
  }

  function HitCount(q: RankedQuery, k: nat): nat {
    |q.relevant * Elements(Cut(q.ranked, k))|
  }

  function RecallAtK(q: RankedQuery, k: int): Result<real, MetricError> {
    if k < 1 then Failure(NonPositiveK)
    else if q.relevant == {} then Success(0.0)
    else Success(HitCount(q, k) as real / |q.relevant| as real)
  }

  function PrecisionAtK(q: RankedQuery, k: int): Result<real, MetricError> {
    if k < 1 then Failure(NonPositiveK) else Success(HitCount(q, k) as real / k as real)
  }

  /** The sum over the first n ranks that hold a relevant passage. */
  function Gain(flags: seq<bool>, n: nat, w: nat -> real): real
    requires n <= |flags|
  {
    if n == 0 then 0.0 else Gain(flags, n - 1, w) + if flags[n - 1] then w(n - 1) else 0.0
  }

  /** The gain of m leading hits. */
  function Ideal(m: nat, w: nat -> real): real {
    if m == 0 then 0.0 else Ideal(m - 1, w) + w(m - 1)
  }

  function Flags(q: RankedQuery): seq<bool> {
    seq(|q.ranked|, i requires 0 <= i < |q.ranked| => q.ranked[i] in q.relevant)
  }

  lemma {:induction false} IdealIsPositive(m: nat, w: nat -> real)
    requires IsDiscount(w)
    ensures Ideal(m, w) >= 0.0 && (m > 0 ==> Ideal(m, w) > 0.0)
  {
    if m > 0 { IdealIsPositive(m - 1, w); }
  }

  function NdcgAtK(q: RankedQuery, k: int, w: nat -> real): Result<real, MetricError>
    requires IsDiscount(w)
  {
    if k < 1 then Failure(NonPositiveK)
    else if q.relevant == {} then Success(0.0)
    else
      IdealIsPositive(Min(|q.relevant|, k), w);
      Success(Gain(Flags(q), Min(k, |q.ranked|), w) / Ideal(Min(|q.relevant|, k), w))
  }

  // ----- Counting hits -----

  function CountFlags(flags: seq<bool>, n: nat): (r: nat)
    requires n <= |flags|
    ensures r <= n
  {
    if n == 0 then 0 else CountFlags(flags, n - 1) + if flags[n - 1] then 1 else 0
  }

  /** With distinct ranks, the hit set is as large as the number of relevant ranks. */
  lemma {:induction false} HitsAreCounted(q: RankedQuery, n: nat)
    requires IsRanking(q) && n <= |q.ranked|
    ensures |q.relevant * Elements(q.ranked[..n])| == CountFlags(Flags(q), n)
  {
    FlaggedHits(q.ranked, q.relevant, Flags(q), n);
  }

  lemma {:induction false} FlaggedHits(ranked: seq<Id>, relevant: set<Id>, flags: seq<bool>, n: nat)
    requires Distinct(ranked) && n <= |ranked| && |flags| == |ranked|
    requires forall i :: 0 <= i < |ranked| ==> flags[i] == (ranked[i] in relevant)
    ensures |relevant * Elements(ranked[..n])| == CountFlags(flags, n)
  {
    if n == 0 {
      NoHitsYet(ranked, relevant);
    } else {
      FlaggedHits(ranked, relevant, flags, n - 1);
      NextHit(ranked, relevant, n);
    }
  }

  lemma {:induction false} NoHitsYet(ranked: seq<Id>, relevant: set<Id>)
    ensures |relevant * Elements(ranked[..0])| == 0
  {
    assert relevant * Elements(ranked[..0]) == {};
  }

  lemma {:induction false} NextHit(ranked: seq<Id>, relevant: set<Id>, n: nat)
    requires Distinct(ranked) && 0 < n <= |ranked|
    ensures |relevant * Elements(ranked[..n])|
            == |relevant * Elements(ranked[..n - 1])| + if ranked[n - 1] in relevant then 1 else 0
  {
    NextIsNew(ranked, n);
    OneMoreHit(relevant, Elements(ranked[..n - 1]), ranked[n - 1]);
  }

  lemma {:induction false} NextIsNew(ranked: seq<Id>, n: nat)
    requires Distinct(ranked) && 0 < n <= |ranked|
    ensures Elements(ranked[..n]) == Elements(ranked[..n - 1]) + {ranked[n - 1]}
    ensures ranked[n - 1] !in Elements(ranked[..n - 1])
  {
    assert ranked[..n] == ranked[..n - 1] + [ranked[n - 1]];
  }

  lemma {:induction false} OneMoreHit(relevant: set<Id>, seen: set<Id>, x: Id)
    requires x !in seen
    ensures |relevant * (seen + {x})| == |relevant * seen| + if x in relevant then 1 else 0
  {
    if x in relevant {
      assert relevant * (seen + {x}) == relevant * seen + {x};
    } else {
      assert relevant * (seen + {x}) == relevant * seen;
    }
  }

  lemma {:induction false} HitCountBounds(q: RankedQuery, k: nat)
    requires IsRanking(q)
    ensures HitCount(q, k) == CountFlags(Flags(q), Min(k, |q.ranked|))
    ensures HitCount(q, k) <= Min(|q.relevant|, k)
  {
    var n := Min(k, |q.ranked|);
    assert Cut(q.ranked, k) == q.ranked[..n];
    HitsAreCounted(q, n);
    SubsetSize(q.relevant * Elements(q.ranked[..n]), q.relevant);
  }

  lemma {:induction false} SubsetSize(a: set<Id>, b: set<Id>)
    requires a <= b
    ensures |a| <= |b|
  {
    assert b == a + (b - a);
  }

  // ----- Recall and precision -----

  /** Recall never decreases as the cutoff grows. */
  lemma {:induction false} RecallIsMonotone(q: RankedQuery, k: int, l: int)
    requires 1 <= k <= l
    ensures 0.0 <= RecallAtK(q, k).value <= RecallAtK(q, l).value <= 1.0
  {
    if q.relevant != {} {
      var a, b := q.relevant * Elements(Cut(q.ranked, k)), q.relevant * Elements(Cut(q.ranked, l));
      SubsetSize(a, b);
      SubsetSize(b, q.relevant);
      var n := |q.relevant| as real;
      QuotientOrder(|a| as real, |b| as real, n);
      QuotientOrder(|b| as real, n, n);
    }
  }

  lemma {:induction false} QuotientOrder(a: real, b: real, n: real)
    requires 0.0 <= a <= b && n > 0.0
    ensures 0.0 <= a / n <= b / n && n / n == 1.0
  {
  }

  /** The two metrics count the same hits: recall times the relevant count is precision times the cutoff. */
  lemma {:induction false} RecallAndPrecisionAgree(q: RankedQuery, k: int)
    requires k >= 1
    ensures RecallAtK(q, k).value * |q.relevant| as real == PrecisionAtK(q, k).value * k as real
  {
    if q.relevant == {} { NoHitsWithoutRelevance(q, k); }
    ScaledAlike(HitCount(q, k), |q.relevant|, k, RecallAtK(q, k).value, PrecisionAtK(q, k).value);
  }

  lemma {:induction false} ScaledAlike(hits: nat, relevant: nat, k: nat, recall: real, precision: real)
    requires k >= 1 && precision == hits as real / k as real
    requires if relevant == 0 then recall == 0.0 && hits == 0 else recall == hits as real / relevant as real
    ensures recall * relevant as real == precision * k as real
  {
    QuotientTimes(hits as real, k as real, precision);
    if relevant > 0 { QuotientTimes(hits as real, relevant as real, recall); }
  }

  lemma {:induction false} NoHitsWithoutRelevance(q: RankedQuery, k: nat)
    requires q.relevant == {}
    ensures HitCount(q, k) == 0
  {
    assert q.relevant * Elements(Cut(q.ranked, k)) == {};
  }

  lemma {:induction false} QuotientTimes(a: real, n: real, r: real)
    requires n > 0.0 && r == a / n
    ensures r * n == a
  {
  }

  // ----- nDCG -----

  lemma {:induction false} IdealIsStrict(a: nat, b: nat, w: nat -> real)
    requires IsDiscount(w) && a <= b
    ensures Ideal(a, w) <= Ideal(b, w) && (a < b ==> Ideal(a, w) < Ideal(b, w))
    decreases b - a
  {
    if a < b { IdealIsStrict(a, b - 1, w); }
  }

  ghost predicate Leading(flags: seq<bool>, h: nat)
    requires h <= |flags|
  {
    forall i :: 0 <= i < h ==> flags[i]
  }

  /** Exchange argument: h hits gain at most what h leading hits gain, and exactly that only when they lead. */
  lemma {:induction false} GainAtMostIdeal(flags: seq<bool>, n: nat, w: nat -> real)
    requires n <= |flags| && IsDiscount(w)
    ensures Gain(flags, n, w) <= Ideal(CountFlags(flags, n), w)
    ensures Gain(flags, n, w) == Ideal(CountFlags(flags, n), w) <==> Leading(flags, CountFlags(flags, n))
    ensures Gain(flags, n, w) >= 0.0
  {
    if n > 0 {
      GainAtMostIdeal(flags, n - 1, w);
      if flags[n - 1] { HitAtLaterRank(flags, n - 1, w); }
    }
  }

  lemma {:induction false} HitAtLaterRank(flags: seq<bool>, n: nat, w: nat -> real)
    requires n < |flags| && flags[n] && IsDiscount(w)
    ensures var h := CountFlags(flags, n);
            w(n) <= w(h) && (Leading(flags, h + 1) <==> Leading(flags, h) && w(n) == w(h))
  {
    var h := CountFlags(flags, n);
    if h < n {
      assert w(n) < w(h);
      if Leading(flags, h) { LeadingImpliesAll(flags, n, h); }
    }
  }

  /** If the first h ranks of n hold all h hits, rank h holds none. */
  lemma {:induction false} LeadingImpliesAll(flags: seq<bool>, n: nat, h: nat)
    requires h < n <= |flags| && CountFlags(flags, n) == h && Leading(flags, h)
    ensures !flags[h]
  {
    LeadingCount(flags, h);
    CountGrows(flags, h, n);
    if flags[h] {
      assert CountFlags(flags, h + 1) == h + 1;
      CountGrows(flags, h + 1, n);
    }
  }

  lemma {:induction false} LeadingCount(flags: seq<bool>, h: nat)
    requires h <= |flags| && Leading(flags, h)
    ensures CountFlags(flags, h) == h
  {
    if h > 0 { LeadingCount(flags, h - 1); }
  }

  lemma {:induction false} CountGrows(flags: seq<bool>, a: nat, b: nat)
    requires a <= b <= |flags|
    ensures CountFlags(flags, a) <= CountFlags(flags, b) <= CountFlags(flags, a) + (b - a)
    decreases b - a
  {
    if a < b { CountGrows(flags, a, b - 1); }
  }

  /** nDCG lies between zero and one. */
  lemma {:induction false} NdcgIsBounded(q: RankedQuery, k: int, w: nat -> real)
    requires IsRanking(q) && IsDiscount(w) && k >= 1
    ensures 0.0 <= NdcgAtK(q, k, w).value <= 1.0
  {
    if q.relevant != {} {
      var n, m := Min(k, |q.ranked|), Min(|q.relevant|, k);
      GainAtMostIdeal(Flags(q), n, w);
      HitCountBounds(q, k);
      IdealIsStrict(CountFlags(Flags(q), n), m, w);
      IdealIsPositive(m, w);
      QuotientOrder(Gain(Flags(q), n, w), Ideal(m, w), Ideal(m, w));
    }
  }

  /** The first min(|relevant|, k) ranks exist and are all relevant. */
  ghost predicate LeadsWithRelevant(q: RankedQuery, k: nat) {
    var m := Min(|q.relevant|, k);
    m <= |q.ranked| && forall i :: 0 <= i < m ==> q.ranked[i] in q.relevant
  }

  lemma {:induction false} QuotientIsOne(a: real, b: real)
    requires b > 0.0
    ensures a / b == 1.0 <==> a == b
  {
  }

  /** nDCG is one exactly for rankings that lead with relevant passages; a query without relevant passages
      scores zero. */
  lemma {:induction false} NdcgIsOneExactlyWhenLeading(q: RankedQuery, k: int, w: nat -> real)
    requires IsRanking(q) && IsDiscount(w) && k >= 1
    ensures NdcgAtK(q, k, w).value == 1.0 <==> q.relevant != {} && LeadsWithRelevant(q, k)
  {
    if q.relevant != {} {
      var flags, n, m := Flags(q), Min(k, |q.ranked|), Min(|q.relevant|, k);
      var h := CountFlags(flags, n);
      GainAtMostIdeal(flags, n, w);
      HitCountBounds(q, k);
      IdealIsStrict(h, m, w);
      IdealIsPositive(m, w);
      QuotientIsOne(Gain(flags, n, w), Ideal(m, w));
      assert LeadsWithRelevant(q, k) <==> m <= |flags| && Leading(flags, m) by {
        assert forall i :: 0 <= i < |flags| ==> flags[i] == (q.ranked[i] in q.relevant);
      }
      if LeadsWithRelevant(q, k) {
        LeadingCount(flags, m);
        CountGrows(flags, m, n);
      }
    }
  }

  /** Without relevant passages every ranking leads with all of them, and still scores zero. */
  lemma {:induction false} NothingRelevantScoresZero(w: nat -> real)
    requires IsDiscount(w)
    ensures var q := RankedQuery("q", ["a"], {}, "s", None);
            IsRanking(q) && LeadsWithRelevant(q, 1) && NdcgAtK(q, 1, w) == Success(0.0)
  {
    assert Distinct(["a"]);
  }

  /** Changing one flag changes the gain by that rank's discount. */
  lemma {:induction false} GainAfterUpdate(flags: seq<bool>, i: nat, b: bool, n: nat, w: nat -> real)
    requires i < |flags| && n <= |flags|
    ensures Gain(flags[i := b], n, w) ==
              Gain(flags, n, w)
              + if i < n && b && !flags[i] then w(i) else if i < n && !b && flags[i] then -w(i) else 0.0
  {
    if n > 0 { GainAfterUpdate(flags, i, b, n - 1, w); }
  }

  function Swapped(q: RankedQuery, i: nat, j: nat): RankedQuery
    requires i < |q.ranked| && j < |q.ranked|
  {
    q.(ranked := q.ranked[i := q.ranked[j]][j := q.ranked[i]])
  }

  /** Moving a relevant passage up never lowers nDCG, and raises it when it enters or climbs within the cutoff
      past a passage that is not relevant. */
  lemma {:induction false} PromotionNeverHurts(q: RankedQuery, i: nat, j: nat, k: int, w: nat -> real)
    requires IsDiscount(w) && k >= 1 && i < j < |q.ranked| && q.ranked[j] in q.relevant
    ensures NdcgAtK(Swapped(q, i, j), k, w).value >= NdcgAtK(q, k, w).value
    ensures i < k && q.ranked[i] !in q.relevant ==>
              NdcgAtK(Swapped(q, i, j), k, w).value > NdcgAtK(q, k, w).value
  {
    var n, m := Min(k, |q.ranked|), Min(|q.relevant|, k);
    var flags, after := Flags(q), Flags(Swapped(q, i, j));
    assert after == flags[i := flags[j]][j := flags[i]];
    GainAfterUpdate(flags, i, flags[j], n, w);
    GainAfterUpdate(flags[i := flags[j]], j, flags[i], n, w);
    IdealIsPositive(m, w);
    assert w(i) > w(j) > 0.0;
    assert Gain(after, n, w) >= Gain(flags, n, w);
    QuotientIsMonotone(Gain(flags, n, w), Gain(after, n, w), Ideal(m, w));
  }

  lemma {:induction false} QuotientIsMonotone(a: real, b: real, n: real)
    requires a <= b && n > 0.0
    ensures a / n <= b / n && (a < b ==> a / n < b / n)
  {
  }
}
