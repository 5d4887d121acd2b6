/** The bounded stride probe of src/echoes/benchmarks/negatives.py. */
module Probe {
  import opened Ordering
  import opened Dictionaries
  import opened NumberTheory

  /** The first step at or above the given one that is coprime to n. */
  ghost function CoprimeStep(step: nat, n: nat): (r: nat)
    requires 1 <= step < n
    ensures step <= r < n && Gcd(r, n) == 1
    ensures forall s :: step <= s < r ==> Gcd(s, n) != 1
    decreases n - step
  {
    PredecessorIsCoprime(n);
    if Gcd(step, n) == 1 then step else CoprimeStep(step + 1, n)
  }

  /** `(start + offset * step) % n` */
  function Stride(start: nat, offset: nat, step: nat, n: nat): (position: nat)
    requires n > 0
    ensures position < n
  {
    (start + offset * step) % n
  }

  /** The probed passages: the whole pool in order when the limit covers it, else strided positions. */
  ghost function ProbeSequence(pool: seq<Id>, words: (nat, nat), limit: nat): seq<Id> {
    var n := |pool|;
    if n < 2 || limit >= n then pool[..if limit < n then limit else n]
    else
      var start, first := words.0 % n, words.1 % n;
      var step := CoprimeStep(if first == 0 then 1 else first, n);
      seq(limit, offset requires 0 <= offset < limit => pool[Stride(start, offset, step, n)])
  }

  method CoprimeStepSearch(first: nat, n: nat) returns (step: nat)
    requires 1 <= first < n
    ensures step == CoprimeStep(first, n)
  {
    PredecessorIsCoprime(n);
    step := first;
    while Gcd(step, n) != 1
      invariant first <= step < n && CoprimeStep(step, n) == CoprimeStep(first, n)
      decreases n - step
    {
      assert step != n - 1;
      step := step + 1;
    }
  }

  /** `words` are the two eight-byte integers read from the probe's digest. */
  method ProbeOrder(pool: seq<Id>, words: (nat, nat), limit: nat) returns (r: seq<Id>)
    ensures r == ProbeSequence(pool, words, limit)
  {
    var n := |pool|;
    if n < 2 || limit >= n {
      return pool[..if limit < n then limit else n];
    }
    var start, step := words.0 % n, words.1 % n;
    step := CoprimeStepSearch(if step == 0 then 1 else step, n);
    r := [];
    for offset := 0 to limit
      invariant r == ProbeSequence(pool, words, limit)[..offset]
    {
      r := r + [pool[Stride(start, offset, step, n)]];
    }
  }

  /** A probe of a duplicate-free pool visits exactly min(limit, |pool|) distinct members of it. */
  lemma {:induction false} ProbeVisitsDistinctMembers(pool: seq<Id>, words: (nat, nat), limit: nat)
    ensures var r := ProbeSequence(pool, words, limit);
            && |r| == (if limit < |pool| then limit else |pool|)
            && (forall k :: 0 <= k < |r| ==> r[k] in pool)
            && (Distinct(pool) ==> Distinct(r))
  {
    var n := |pool|;
    if n >= 2 && limit < n {
      var start, first := words.0 % n, words.1 % n;
      var step := CoprimeStep(if first == 0 then 1 else first, n);
      var r := ProbeSequence(pool, words, limit);
      assert forall k :: 0 <= k < |r| ==> r[k] == pool[Stride(start, k, step, n)];
      if Distinct(pool) {
        forall i, j | 0 <= i < j < |r| ensures r[i] != r[j] {
          StridesDiffer(start, step, n, i, j);
        }
      }
    }
  }

  /** A limit that covers the pool probes every member, so nothing valid can be missed. */
  lemma {:induction false} CoveringProbeIsComplete(pool: seq<Id>, words: (nat, nat), limit: nat)
    requires limit >= |pool|
    ensures ProbeSequence(pool, words, limit) == pool
  {
  }
}
