/** The greatest common divisor and the two facts the stride probe rests on. */
module NumberTheory {

  /** `math.gcd` for natural numbers. */
  function Gcd(a: nat, b: nat): nat
    decreases b
  {
    if b == 0 then a else Gcd(b, a % b)
  }

  // ----- Products of variables, one fact at a time -----

  lemma {:induction false} Distribute(a: int, b: int, c: int)
    ensures a * (b + c) == a * b + a * c
  {
  }

  lemma {:induction false} DistributeRight(a: int, b: int, c: int)
    ensures (a - b) * c == a * c - b * c && (a + b) * c == a * c + b * c
  {
  }

  lemma {:induction false} Rotate(d: int, u: int, step: int)
    ensures d * (u * step) == u * (d * step)
  {
  }

  lemma {:induction false} Regroup(u: int, q: int, n: int)
    ensures u * (q * n) == (u * q) * n
  {
  }

  /** One step of the extended algorithm. */
  lemma {:induction false} BezoutStep(a: int, b: int, q: int, r: int, s: int, t: int)
    requires a == q * b + r
    ensures t * a + (s - t * q) * b == s * b + t * r
  {
    Distribute(t, q * b, r);
    Regroup(t, q, b);
    DistributeRight(s, t * q, b);
  }

  lemma {:induction false} Bezout(a: nat, b: nat) returns (u: int, v: int)
    ensures u * a + v * b == Gcd(a, b)
    decreases b
  {
    if b == 0 {
      u, v := 1, 0;
    } else {
      var q, r := a / b, a % b;
      var s, t := Bezout(b, r);
      BezoutStep(a, b, q, r, s, t);
      u, v := t, s - t * q;
    }
  }

  lemma {:induction false} SmallMultipleIsZero(d: int, n: int)
    requires -n < d * n < n
    ensures d == 0
  {
  }

  lemma {:induction false} DivisionIsUnique(x: int, n: nat, q: int, r: int)
    requires n > 0 && x == q * n + r && 0 <= r < n
    ensures x / n == q && x % n == r
  {
    var p := x / n;
    assert x == p * n + x % n;
    DistributeRight(p, q, n);
    SmallMultipleIsZero(p - q, n);
  }

  lemma {:induction false} IsMultiple(x: int, k: int, n: int)
    requires n > 0 && x == k * n
    ensures x % n == 0
  {
    DivisionIsUnique(x, n, k, 0);
  }

  /** A multiple of n that a unit combination divides out is a multiple of n. */
  lemma {:induction false} CancelMultiple(d: int, step: int, n: int, u: int, v: int, q: int)
    requires u * step + v * n == 1 && d * step == q * n
    ensures d == (u * q + d * v) * n
  {
    Distribute(d, u * step, v * n);
    Rotate(d, u, step);
    Regroup(u, q, n);
    Regroup(d, v, n);
    DistributeRight(u * q, d * v, n);
  }

  /** A step coprime to n can be cancelled modulo n. */
  lemma {:induction false} CoprimeCancels(step: nat, n: nat, d: int)
    requires n > 0 && Gcd(step, n) == 1 && (d * step) % n == 0
    ensures d % n == 0
  {
    var u, v := Bezout(step, n);
    var q := Quotient(d * step, n);
    CancelMultiple(d, step, n, u, v, q);
    IsMultiple(d, u * q + d * v, n);
  }

  lemma {:induction false} Quotient(x: int, n: int) returns (q: int)
    requires n > 0
    ensures x == q * n + x % n
  {
    q := x / n;
  }

  /** n - 1 is coprime to n, so a search upward for a coprime step stops below n. */
  lemma {:induction false} PredecessorIsCoprime(n: nat)
    requires n >= 2
    ensures Gcd(n - 1, n) == 1
  {
    assert (n - 1) % n == n - 1;
    assert Gcd(n - 1, n) == Gcd(n, n - 1) == Gcd(n - 1, n % (n - 1));
    if n > 2 {
      DivisionIsUnique(n, n - 1, 1, 1);
      assert Gcd(n - 1, 1) == Gcd(1, (n - 1) % 1) == Gcd(1, 0);
    }
  }

  lemma {:induction false} EqualRemainders(a: int, b: int, n: int)
    requires n > 0 && a % n == b % n
    ensures (b - a) % n == 0
  {
    var p := Quotient(a, n);
    var q := Quotient(b, n);
    DistributeRight(q, p, n);
    IsMultiple(b - a, q - p, n);
  }

  lemma {:induction false} StrideGap(start: int, step: int, i: int, j: int)
    ensures (start + j * step) - (start + i * step) == (j - i) * step
  {
    DistributeRight(j, i, step);
  }

  lemma {:induction false} EqualStridesDivide(start: nat, step: nat, n: nat, i: nat, j: nat)
    requires n > 0 && (start + i * step) % n == (start + j * step) % n
    ensures ((j - i) * step) % n == 0
  {
    EqualRemainders(start + i * step, start + j * step, n);
    StrideGap(start, step, i, j);
  }

  /** Fewer than n strides of a coprime step never revisit a position. */
  lemma {:induction false} StridesDiffer(start: nat, step: nat, n: nat, i: nat, j: nat)
    requires n > 0 && Gcd(step, n) == 1 && i < j < n
    ensures (start + i * step) % n != (start + j * step) % n
  {
    if (start + i * step) % n == (start + j * step) % n {
      EqualStridesDivide(start, step, n, i, j);
      CoprimeCancels(step, n, j - i);
      DivisionIsUnique(j - i, n, 0, j - i);
    }
  }
}
