/** Leakage groups dealt round a weighted cycle of partitions, in digest order
    (src/echoes/benchmarks/positive_controls.py). */
module WeightedCycles {
  import opened Ordering
  import opened BenchmarkRows
  import Dictionaries
  import NumberTheory

  datatype Weights = Weights(train: nat, development: nat, test: nat)
  {
    predicate Valid() { train >= 1 && development >= 1 && test >= 1 }

    function Size(): nat { train + development + test }

    function Of(p: Partition): nat {
      match p
      case Train => train
      case Development => development
      case Test => test
      case Excluded => 0
    }

    /** Where the run of a partition starts in the cycle. */
    function Start(p: Partition): nat {
      match p
      case Train => 0
      case Development => train
      case Test => train + development
      case Excluded => train + development + test
    }
  }

  function Repeat(p: Partition, n: nat): (r: seq<Partition>)
    ensures |r| == n && forall i | 0 <= i < n :: r[i] == p
  {
    if n == 0 then [] else [p] + Repeat(p, n - 1)
  }

  function Cycle(w: Weights): (r: seq<Partition>)
    ensures |r| == w.Size()
    ensures forall i, p: Partition | 0 <= i < |r| :: r[i] == p <==> w.Start(p) <= i < w.Start(p) + w.Of(p)
  {
    Repeat(Train, w.train) + Repeat(Development, w.development) + Repeat(Test, w.test)
  }

  // ---- the order of the deal ----

  /** Groups are ordered by digest, and by name where digests agree. */
  predicate DigestAtMost(digest: Id -> Id, a: Id, b: Id) {
    Less(digest(a), digest(b)) || (digest(a) == digest(b) && AtMost(a, b))
  }

  lemma {:induction false} DigestAtMostIsTransitive(digest: Id -> Id, a: Id, b: Id, c: Id)
    requires DigestAtMost(digest, a, b) && DigestAtMost(digest, b, c)
    ensures DigestAtMost(digest, a, c)
  {
    if Less(digest(a), digest(b)) && Less(digest(b), digest(c)) {
      LessIsTransitive(digest(a), digest(b), digest(c));
    } else if !Less(digest(a), digest(b)) && !Less(digest(b), digest(c)) {
      AtMostIsTransitive(a, b, c);
    }
  }

  lemma {:induction false} DigestAtMostIsTotal(digest: Id -> Id, a: Id, b: Id)
    ensures DigestAtMost(digest, a, b) || DigestAtMost(digest, b, a)
  {
    LessIsTotal(digest(a), digest(b));
    LessIsTotal(a, b);
  }

  ghost predicate InDigestOrder(s: seq<Id>, digest: Id -> Id) {
    forall i, j | 0 <= i < j < |s| :: DigestAtMost(digest, s[i], s[j])
  }

  /** `sorted(groups, key=lambda value: (digest(value), value))` */
  function Ordered(groups: set<Id>, digest: Id -> Id): (r: seq<Id>)
    ensures Elements(r) == groups && Dictionaries.Distinct(r) && InDigestOrder(r, digest)
  {
    Sorted(Enumeration(groups), digest)
  }

  function Sorted(s: seq<Id>, digest: Id -> Id): (r: seq<Id>)
    requires Ascending(s)
    ensures Elements(r) == Elements(s) && Dictionaries.Distinct(r) && InDigestOrder(r, digest)
  {
    AscendingIsDistinct(s);
    var r := SortByDigest(s, digest);
    Dictionaries.PermutationKeepsElements(s, r);
    Dictionaries.DistinctPermutation(s, r);
    r
  }

  function SortByDigest(s: seq<Id>, digest: Id -> Id): (r: seq<Id>)
    ensures InDigestOrder(r, digest) && multiset(r) == multiset(s)
  {
    if s == [] then []
    else
      assert s == [s[0]] + s[1..];
      InsertByDigest(s[0], SortByDigest(s[1..], digest), digest)
  }

  function InsertByDigest(x: Id, s: seq<Id>, digest: Id -> Id): (r: seq<Id>)
    requires InDigestOrder(s, digest)
    ensures InDigestOrder(r, digest) && multiset(r) == multiset(s) + multiset{x}
  {
    if s == [] then [x]
    else if DigestAtMost(digest, x, s[0]) then
      GoesInFront(x, s, digest);
      [x] + s
    else
      assert s == [s[0]] + s[1..];
      var rest := InsertByDigest(x, s[1..], digest);
      GoesBehind(x, s, rest, digest);
      [s[0]] + rest
  }

  lemma {:induction false} GoesInFront(x: Id, s: seq<Id>, digest: Id -> Id)
    requires s != [] && InDigestOrder(s, digest) && DigestAtMost(digest, x, s[0])
    ensures InDigestOrder([x] + s, digest)
  {
    forall j | 0 <= j < |s|
      ensures DigestAtMost(digest, x, s[j])
    {
      if j > 0 { DigestAtMostIsTransitive(digest, x, s[0], s[j]); }
    }
  }

  lemma {:induction false} GoesBehind(x: Id, s: seq<Id>, rest: seq<Id>, digest: Id -> Id)
    requires s != [] && InDigestOrder(s, digest) && !DigestAtMost(digest, x, s[0])
    requires InDigestOrder(rest, digest) && multiset(rest) == multiset(s[1..]) + multiset{x}
    ensures InDigestOrder([s[0]] + rest, digest)
  {
    DigestAtMostIsTotal(digest, x, s[0]);
    forall j | 0 <= j < |rest|
      ensures DigestAtMost(digest, s[0], rest[j])
    {
      assert rest[j] in multiset(rest);
      if rest[j] != x {
        var k :| 0 <= k < |s[1..]| && s[1..][k] == rest[j];
        assert s[k + 1] == rest[j];
      }
    }
  }

  // ---- the deal ----

  /** The partition whose turn it is, going round the cycle. */
  function At(cycle: seq<Partition>, i: nat): Partition
    requires cycle != []
  {
    if i < |cycle| then cycle[i] else At(cycle, i - |cycle|)
  }

  lemma {:induction false} AtIsRemainder(cycle: seq<Partition>, i: nat)
    requires cycle != []
    ensures At(cycle, i) == cycle[i % |cycle|]
  {
    var size := |cycle|;
    if i < size {
      NumberTheory.DivisionIsUnique(i, size, 0, i);
    } else {
      AtIsRemainder(cycle, i - size);
      var q := (i - size) / size;
      assert i == (q + 1) * size + (i - size) % size;
      NumberTheory.DivisionIsUnique(i, size, q + 1, (i - size) % size);
    }
  }

  function Dealt(ordered: seq<Id>, cycle: seq<Partition>): map<Id, Partition>
    requires cycle != []
  {
    if ordered == [] then map[]
    else var n := |ordered| - 1; Dealt(ordered[..n], cycle)[ordered[n] := cycle[n % |cycle|]]
  }

  /** `deterministic_leakage_group_splits`, where no groups are an error. */
  function GroupSplits(groups: set<Id>, digest: Id -> Id, w: Weights): map<Id, Partition>
    requires w.Valid()
  {
    Dealt(Ordered(groups, digest), Cycle(w))
  }

  lemma {:induction false} DealtKeys(ordered: seq<Id>, cycle: seq<Partition>)
    requires cycle != []
    ensures Dealt(ordered, cycle).Keys == Elements(ordered)
  {
    if ordered != [] {
      var front, last := ordered[..|ordered| - 1], ordered[|ordered| - 1];
      DealtKeys(front, cycle);
      assert ordered == front + [last];
    }
  }

  /** How many of the first n turns fall to a partition. */
  function Turns(cycle: seq<Partition>, n: nat, p: Partition): nat
    requires cycle != []
  {
    if n == 0 then 0 else Turns(cycle, n - 1, p) + if At(cycle, n - 1) == p then 1 else 0
  }

  lemma {:induction false} TurnsRepeat(cycle: seq<Partition>, n: nat, p: Partition)
    requires cycle != []
    ensures Turns(cycle, n + |cycle|, p) == Turns(cycle, n, p) + Turns(cycle, |cycle|, p)
  {
    if n > 0 {
      TurnsRepeat(cycle, n - 1, p);
    }
  }

  function Clamp(x: int, high: nat): nat { if x < 0 then 0 else if x > high then high else x }

  lemma {:induction false} FirstRoundTurns(w: Weights, n: nat, p: Partition)
    requires w.Valid() && n <= w.Size()
    ensures Turns(Cycle(w), n, p) == Clamp(n - w.Start(p), w.Of(p))
  {
    if n > 0 {
      FirstRoundTurns(w, n - 1, p);
    }
  }

  function Times(rounds: nat, size: nat): nat {
    if rounds == 0 then 0 else Times(rounds - 1, size) + size
  }

  /** After some full rounds and a part of one more, a partition has had its weight per round and what the part
      reaches of its run. */
  lemma {:induction false} TurnsAreWeighted(w: Weights, rounds: nat, part: nat, p: Partition)
    requires w.Valid() && part < w.Size()
    ensures Turns(Cycle(w), Times(rounds, w.Size()) + part, p) ==
            Times(rounds, w.Of(p)) + Clamp(part - w.Start(p), w.Of(p))
  {
    if rounds == 0 {
      FirstRoundTurns(w, part, p);
    } else {
      TurnsAreWeighted(w, rounds - 1, part, p);
      TurnsRepeat(Cycle(w), Times(rounds - 1, w.Size()) + part, p);
      FirstRoundTurns(w, w.Size(), p);
    }
  }

  lemma {:induction false} TimesIsProduct(rounds: nat, size: nat)
    ensures Times(rounds, size) == rounds * size
  {
    if rounds > 0 {
      TimesIsProduct(rounds - 1, size);
      assert rounds * size == (rounds - 1) * size + size;
    }
  }

  function GroupsIn(splits: map<Id, Partition>, p: Partition): set<Id> {
    set g | g in splits && splits[g] == p
  }

  lemma {:induction false} DealtShares(ordered: seq<Id>, cycle: seq<Partition>, p: Partition)
    requires cycle != [] && Dictionaries.Distinct(ordered)
    ensures |GroupsIn(Dealt(ordered, cycle), p)| == Turns(cycle, |ordered|, p)
  {
    if ordered == [] {
      assert GroupsIn(map[], p) == {};
    } else {
      var front, last := ordered[..|ordered| - 1], ordered[|ordered| - 1];
      DealtShares(front, cycle, p);
      DealtKeys(front, cycle);
      assert last !in Elements(front);
      AtIsRemainder(cycle, |front|);
      OneMoreGroup(Dealt(front, cycle), last, At(cycle, |front|), p);
    }
  }

  lemma {:induction false} OneMoreGroup(before: map<Id, Partition>, g: Id, dealt: Partition, p: Partition)
    requires g !in before
    ensures |GroupsIn(before[g := dealt], p)| == |GroupsIn(before, p)| + if dealt == p then 1 else 0
  {
    assert GroupsIn(before[g := dealt], p) == GroupsIn(before, p) + if dealt == p then {g} else {};
  }

  lemma {:induction false} DistinctSize(s: seq<Id>)
    requires Dictionaries.Distinct(s)
    ensures |Elements(s)| == |s|
  {
    if s != [] {
      var front, last := s[..|s| - 1], s[|s| - 1];
      DistinctSize(front);
      assert s == front + [last];
      assert Elements(s) == Elements(front) + {last};
    }
  }

  /** A partition's share of n groups: its weight for every full round, and what the last round reaches of its
      run. */
  function Share(w: Weights, n: nat, p: Partition): nat
    requires w.Valid()
  {
    Weighted(w, n / w.Size(), n % w.Size(), p)
  }

  function Weighted(w: Weights, rounds: nat, part: nat, p: Partition): nat {
    rounds * w.Of(p) + Clamp(part - w.Start(p), w.Of(p))
  }

  lemma {:induction false} TurnsAreShare(w: Weights, n: nat, p: Partition)
    requires w.Valid()
    ensures Turns(Cycle(w), n, p) == Share(w, n, p)
  {
    var rounds, part := n / w.Size(), n % w.Size();
    assert n == rounds * w.Size() + part;
    TurnsAreWeighted(w, rounds, part, p);
    TimesIsProduct(rounds, w.Size());
    TimesIsProduct(rounds, w.Of(p));
  }

  lemma {:induction false} WeightedIsPositive(w: Weights, rounds: nat, part: nat, p: Partition)
    requires w.Valid() && rounds >= 1 && p != Excluded
    ensures Weighted(w, rounds, part, p) >= 1
  {
    assert rounds * w.Of(p) == w.Of(p) + (rounds - 1) * w.Of(p);
    assert (rounds - 1) * w.Of(p) >= 0;
  }

  lemma {:induction false} RoundsArePositive(n: nat, size: nat)
    requires n >= size > 0
    ensures n / size >= 1
  {
  }

  /** Every group gets a partition, and every partition its share. */
  lemma {:induction false} DealIsWeighted(groups: set<Id>, digest: Id -> Id, w: Weights, p: Partition)
    requires w.Valid()
    ensures GroupSplits(groups, digest, w).Keys == groups
    ensures |GroupsIn(GroupSplits(groups, digest, w), p)| == Share(w, |groups|, p)
  {
    var ordered := Ordered(groups, digest);
    DealtKeys(ordered, Cycle(w));
    DealtShares(ordered, Cycle(w), p);
    DistinctSize(ordered);
    TurnsAreShare(w, |groups|, p);
  }

  /** From one full round on, every partition has a group. */
  lemma {:induction false} FullRoundPopulates(groups: set<Id>, digest: Id -> Id, w: Weights, p: Partition)
    returns (g: Id)
    requires w.Valid() && |groups| >= w.Size() && p != Excluded
    ensures g in groups && g in GroupSplits(groups, digest, w) && GroupSplits(groups, digest, w)[g] == p
  {
    DealIsWeighted(groups, digest, w, p);
    RoundsArePositive(|groups|, w.Size());
    WeightedIsPositive(w, |groups| / w.Size(), |groups| % w.Size(), p);
    var chosen := GroupsIn(GroupSplits(groups, digest, w), p);
    assert chosen != {};
    g :| g in chosen;
  }
}
