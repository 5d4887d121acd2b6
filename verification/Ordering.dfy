/** Identifiers and their order.  Python compares strings lexicographically by code point; every
    "smaller id wins" and every `sorted(...)` over identifiers in the benchmark builder uses that order. */
module Ordering {

  type Id = string

  /** Strict lexicographic order. */
  predicate Less(a: Id, b: Id) {
    b != "" && (a == "" || a[0] < b[0] || (a[0] == b[0] && Less(a[1..], b[1..])))
  }

  predicate AtMost(a: Id, b: Id) {
    a == b || Less(a, b)
  }

  lemma {:induction false} LessIsIrreflexive(a: Id)
    ensures !Less(a, a)
  {
    if a != "" {
      LessIsIrreflexive(a[1..]);
    }
  }

  lemma {:induction false} LessIsTotal(a: Id, b: Id)
    ensures a == b || Less(a, b) || Less(b, a)
  {
    if a != "" && b != "" && a[0] == b[0] {
      LessIsTotal(a[1..], b[1..]);
      assert a == [a[0]] + a[1..] && b == [b[0]] + b[1..];
    }
  }

  lemma {:induction false} LessIsTransitive(a: Id, b: Id, c: Id)
    requires Less(a, b) && Less(b, c)
    ensures Less(a, c)
  {
    if a != "" && a[0] == b[0] && b[0] == c[0] {
      LessIsTransitive(a[1..], b[1..], c[1..]);
    }
  }

  lemma {:induction false} LessIsAsymmetric(a: Id, b: Id)
    requires Less(a, b)
    ensures !Less(b, a)
  {
    if Less(b, a) {
      LessIsTransitive(a, b, a);
      LessIsIrreflexive(a);
    }
  }

  lemma {:induction false} AtMostIsTransitive(a: Id, b: Id, c: Id)
    requires AtMost(a, b) && AtMost(b, c)
    ensures AtMost(a, c)
  {
    if a != b && b != c {
      LessIsTransitive(a, b, c);
    }
  }

  lemma {:induction false} AtMostIsAntisymmetric(a: Id, b: Id)
    requires AtMost(a, b) && AtMost(b, a)
    ensures a == b
  {
    if Less(a, b) {
      LessIsAsymmetric(a, b);
    }
  }

  /** The smaller of two identifiers. */
  function Smaller(a: Id, b: Id): (m: Id)
    ensures (m == a || m == b) && AtMost(m, a) && AtMost(m, b)
  {
    LessIsTotal(a, b);
    if Less(b, a) then b else a
  }

  /** Strictly increasing: sorted and free of duplicates. */
  ghost predicate Ascending(s: seq<Id>) {
    forall i, j :: 0 <= i < j < |s| ==> Less(s[i], s[j])
  }

  function Elements<T>(s: seq<T>): set<T>
  {
    set x | x in s
  }

  predicate IsLeast(x: Id, s: set<Id>) {
    x in s && forall y :: y in s ==> AtMost(x, y)
  }

  lemma {:induction false} LeastExists(s: set<Id>)
    requires s != {}
    ensures exists x :: IsLeast(x, s)
  {
    var x :| x in s;
    if s == {x} {
      assert IsLeast(x, s);
    } else {
      var rest := s - {x};
      LeastExists(rest);
      var m :| IsLeast(m, rest);
      var least := Smaller(x, m);
      forall y | y in s ensures AtMost(least, y) {
        if y != x {
          AtMostIsTransitive(least, m, y);
        }
      }
      assert IsLeast(least, s);
    }
  }

  lemma {:induction false} LeastIsUnique(x: Id, y: Id, s: set<Id>)
    requires IsLeast(x, s) && IsLeast(y, s)
    ensures x == y
  {
    AtMostIsAntisymmetric(x, y);
  }

  lemma {:induction false} LeastIsDetermined(s: set<Id>)
    ensures forall x, y :: IsLeast(x, s) && IsLeast(y, s) ==> x == y
  {
    forall x, y | IsLeast(x, s) && IsLeast(y, s) ensures x == y {
      LeastIsUnique(x, y, s);
    }
  }

  /** The least identifier of a nonempty set. */
  function Least(s: set<Id>): (m: Id)
    requires s != {}
    ensures IsLeast(m, s)
  {
    LeastExists(s);
    LeastIsDetermined(s);
    var m :| m in s && IsLeast(m, s);
    m
  }

  /** Insert into a strictly increasing sequence, dropping a duplicate. */
  function Insert(x: Id, s: seq<Id>): (r: seq<Id>)
    ensures Elements(r) == Elements(s) + {x}
    ensures Ascending(s) ==> Ascending(r)
  {
    if s == [] then [x]
    else if x == s[0] then s
    else if Less(x, s[0]) then
      InsertInFront(x, s);
      [x] + s
    else
      var rest := Insert(x, s[1..]);
      InsertBehind(x, s, rest);
      [s[0]] + rest
  }

  lemma {:induction false} InsertInFront(x: Id, s: seq<Id>)
    requires s != [] && Less(x, s[0])
    ensures Ascending(s) ==> Ascending([x] + s)
  {
    if Ascending(s) {
      var r := [x] + s;
      forall i, j | 0 <= i < j < |r| ensures Less(r[i], r[j]) {
        if i == 0 && j > 1 {
          LessIsTransitive(x, s[0], s[j - 1]);
        }
      }
    }
  }

  lemma {:induction false} InsertBehind(x: Id, s: seq<Id>, rest: seq<Id>)
    requires s != [] && x != s[0] && !Less(x, s[0])
    requires Elements(rest) == Elements(s[1..]) + {x}
    requires Ascending(s[1..]) ==> Ascending(rest)
    ensures Elements([s[0]] + rest) == Elements(s) + {x}
    ensures Ascending(s) ==> Ascending([s[0]] + rest)
  {
    LessIsTotal(x, s[0]);
    assert s == [s[0]] + s[1..];
    assert Elements([s[0]] + rest) == {s[0]} + Elements(rest);
    assert Elements(s) == {s[0]} + Elements(s[1..]);
    if Ascending(s) {
      var r := [s[0]] + rest;
      forall i, j | 0 <= i < j < |r| ensures Less(r[i], r[j]) {
        if i == 0 {
          assert r[j] in Elements(rest);
          if r[j] != x {
            var k :| 0 <= k < |s[1..]| && s[1..][k] == r[j];
            assert s[k + 1] == r[j];
          }
        }
      }
    }
  }

  /** Python's `sorted(set(s))`. */
  function SortedDistinct(s: seq<Id>): (r: seq<Id>)
    ensures Ascending(r)
    ensures Elements(r) == Elements(s)
  {
    if s == [] then []
    else
      assert s == [s[0]] + s[1..];
      Insert(s[0], SortedDistinct(s[1..]))
  }

  /** A set of identifiers has exactly one strictly increasing enumeration. */
  lemma {:induction false} AscendingIsUnique(a: seq<Id>, b: seq<Id>)
    requires Ascending(a) && Ascending(b)
    requires Elements(a) == Elements(b)
    ensures a == b
  {
    assert (a == [] || a[0] in Elements(a)) && (b == [] || b[0] in Elements(b));
    if a != [] && b != [] {
      HeadIsLeast(a);
      HeadIsLeast(b);
      LeastIsUnique(a[0], b[0], Elements(a));
      TailElements(a);
      TailElements(b);
      AscendingIsUnique(a[1..], b[1..]);
      assert a == [a[0]] + a[1..] && b == [b[0]] + b[1..];
    }
  }

  lemma {:induction false} HeadIsLeast(s: seq<Id>)
    requires Ascending(s) && s != []
    ensures IsLeast(s[0], Elements(s))
  {
  }

  lemma {:induction false} TailElements(s: seq<Id>)
    requires Ascending(s) && s != []
    ensures Elements(s[1..]) == Elements(s) - {s[0]}
  {
    LessIsIrreflexive(s[0]);
    assert s == [s[0]] + s[1..];
    forall i | 0 <= i < |s[1..]| ensures s[1..][i] != s[0] {
      assert Less(s[0], s[i + 1]);
    }
  }

  /** Ascending sequences hold no duplicates. */
  lemma {:induction false} AscendingIsDistinct(s: seq<Id>)
    requires Ascending(s)
    ensures forall i, j :: 0 <= i < |s| && 0 <= j < |s| && s[i] == s[j] ==> i == j
  {
    forall i, j | 0 <= i < j < |s| ensures s[i] != s[j] {
      LessIsIrreflexive(s[i]);
    }
  }

  /** The strictly increasing enumeration of a set, `sorted(s)` for a Python set of identifiers. */
  function Enumeration(s: set<Id>): (r: seq<Id>)
    ensures Ascending(r)
    ensures Elements(r) == s
    decreases s
  {
    if s == {} then []
    else
      var m := Least(s);
      var rest := Enumeration(s - {m});
      assert Elements([m] + rest) == {m} + Elements(rest);
      LeastGoesInFront(m, s, rest);
      [m] + rest
  }

  lemma {:induction false} LeastGoesInFront(m: Id, s: set<Id>, rest: seq<Id>)
    requires IsLeast(m, s) && Ascending(rest) && Elements(rest) == s - {m}
    ensures Ascending([m] + rest)
  {
    forall j | 0 <= j < |rest| ensures Less(m, rest[j]) {
      assert rest[j] in Elements(rest);
    }
  }

  lemma {:induction false} SortedDistinctIsEnumeration(s: seq<Id>)
    ensures SortedDistinct(s) == Enumeration(Elements(s))
  {
    AscendingIsUnique(SortedDistinct(s), Enumeration(Elements(s)));
  }

  /** Python's stable `sorted(s, key=key)` for a string key, as an insertion sort. */
  function SortOn<T>(s: seq<T>, key: T -> Id): (r: seq<T>)
    ensures SortedOn(r, key)
    ensures multiset(r) == multiset(s)
  {
    if s == [] then []
    else
      assert s == [s[0]] + s[1..];
      InsertOn(s[0], SortOn(s[1..], key), key)
  }

  ghost predicate SortedOn<T>(s: seq<T>, key: T -> Id) {
    forall i, j :: 0 <= i < j < |s| ==> AtMost(key(s[i]), key(s[j]))
  }

  function InsertOn<T>(x: T, s: seq<T>, key: T -> Id): (r: seq<T>)
    requires SortedOn(s, key)
    ensures SortedOn(r, key)
    ensures multiset(r) == multiset(s) + multiset{x}
  {
    if s == [] then [x]
    else if AtMost(key(x), key(s[0])) then
      InsertOnInFront(x, s, key);
      [x] + s
    else
      assert s == [s[0]] + s[1..];
      var rest := InsertOn(x, s[1..], key);
      InsertOnBehind(x, s, rest, key);
      [s[0]] + rest
  }

  lemma {:induction false} InsertOnInFront<T>(x: T, s: seq<T>, key: T -> Id)
    requires s != [] && SortedOn(s, key) && AtMost(key(x), key(s[0]))
    ensures SortedOn([x] + s, key)
  {
    forall j | 0 <= j < |s| ensures AtMost(key(x), key(s[j])) {
      AtMostIsTransitive(key(x), key(s[0]), key(s[j]));
    }
  }

  lemma {:induction false} InsertOnBehind<T>(x: T, s: seq<T>, rest: seq<T>, key: T -> Id)
    requires s != [] && SortedOn(s, key) && !AtMost(key(x), key(s[0]))
    requires SortedOn(rest, key) && multiset(rest) == multiset(s[1..]) + multiset{x}
    ensures SortedOn([s[0]] + rest, key)
  {
    LessIsTotal(key(x), key(s[0]));
    forall j | 0 <= j < |rest| ensures AtMost(key(s[0]), key(rest[j])) {
      assert rest[j] in multiset(rest);
      if rest[j] != x {
        var k :| 0 <= k < |s[1..]| && s[1..][k] == rest[j];
        assert s[k + 1] == rest[j];
      }
    }
  }

  /** Sorting by a key that never repeats lists the keys in strictly increasing order. */
  lemma {:induction false} SortedDistinctKeysAscend<T>(s: seq<T>, key: T -> Id, keys: seq<Id>)
    requires SortedOn(s, key)
    requires |keys| == |s| && forall i :: 0 <= i < |s| ==> keys[i] == key(s[i])
    requires forall i, j :: 0 <= i < j < |s| ==> key(s[i]) != key(s[j])
    ensures Ascending(keys)
  {
  }

  // ----- Stability -----

  /** Sorted by the key, and elements of one key in the order of the tie-break. */
  ghost predicate SortedThen<T>(s: seq<T>, key: T -> Id, tie: (T, T) -> bool) {
    forall i, j :: 0 <= i < j < |s| ==> ComesThen(s[i], s[j], key, tie)
  }

  predicate ComesThen<T>(x: T, y: T, key: T -> Id, tie: (T, T) -> bool) {
    Less(key(x), key(y)) || (key(x) == key(y) && tie(x, y))
  }

  lemma {:induction false} InsertOnIsStable<T>(x: T, s: seq<T>, key: T -> Id, tie: (T, T) -> bool)
    requires SortedOn(s, key) && SortedThen(s, key, tie) && forall j :: 0 <= j < |s| ==> tie(x, s[j])
    ensures SortedThen(InsertOn(x, s, key), key, tie)
  {
    if s != [] && !AtMost(key(x), key(s[0])) {
      var tail := s[1..];
      assert forall j :: 0 <= j < |tail| ==> tail[j] == s[j + 1];
      InsertOnIsStable(x, tail, key, tie);
      LessIsTotal(key(x), key(s[0]));
      assert s == [s[0]] + tail;
      var rest := InsertOn(x, tail, key);
      forall j | 0 <= j < |rest| ensures ComesThen(s[0], rest[j], key, tie) {
        assert rest[j] in multiset(rest);
        if rest[j] != x {
          var k :| 0 <= k < |tail| && tail[k] == rest[j];
          assert ComesThen(s[0], s[k + 1], key, tie);
        }
      }
    } else {
      forall j | 0 <= j < |s| ensures ComesThen(x, s[j], key, tie) {
        AtMostIsTransitive(key(x), key(s[0]), key(s[j]));
      }
    }
  }

  /** The sort keeps the order of elements whose keys are equal. */
  lemma {:induction false} SortOnIsStable<T>(s: seq<T>, key: T -> Id, tie: (T, T) -> bool)
    requires forall i, j :: 0 <= i < j < |s| ==> tie(s[i], s[j])
    ensures SortedThen(SortOn(s, key), key, tie)
  {
    if s != [] {
      var tail, rest := s[1..], SortOn(s[1..], key);
      SortOnIsStable(tail, key, tie);
      assert s == [s[0]] + tail;
      forall j | 0 <= j < |rest| ensures tie(s[0], rest[j]) {
        assert rest[j] in multiset(rest);
        var k :| 0 <= k < |tail| && tail[k] == rest[j];
        assert tie(s[0], s[k + 1]);
      }
      InsertOnIsStable(s[0], rest, key, tie);
    }
  }

  ghost predicate Ordered<T>(s: seq<T>, before: (T, T) -> bool) {
    forall i, j :: 0 <= i < j < |s| ==> before(s[i], s[j])
  }

  lemma {:induction false} LeadersAgree<T>(a: seq<T>, b: seq<T>, before: (T, T) -> bool)
    requires multiset(a) == multiset(b) && a != [] && b != [] && Ordered(a, before) && Ordered(b, before)
    requires forall x, y :: before(x, y) && before(y, x) ==> x == y
    ensures a[0] == b[0]
  {
    assert a[0] in multiset(b) && b[0] in multiset(a);
    var i :| 0 <= i < |b| && b[i] == a[0];
    var j :| 0 <= j < |a| && a[j] == b[0];
    assert i == 0 || before(b[0], b[i]);
    assert j == 0 || before(a[0], a[j]);
  }

  lemma {:induction false} WithoutLeader<T>(s: seq<T>)
    requires s != []
    ensures s == [s[0]] + s[1..] && multiset(s[1..]) == multiset(s) - multiset{s[0]}
  {
    assert s == [s[0]] + s[1..];
  }

  /** A listing in an order without ties between different elements is determined by what it lists. */
  lemma {:induction false} OrderedIsUnique<T>(a: seq<T>, b: seq<T>, before: (T, T) -> bool)
    requires multiset(a) == multiset(b) && Ordered(a, before) && Ordered(b, before)
    requires forall x, y :: before(x, y) && before(y, x) ==> x == y
    ensures a == b
  {
    assert |a| == |multiset(a)| == |multiset(b)| == |b|;
    if a != [] {
      LeadersAgree(a, b, before);
      WithoutLeader(a);
      WithoutLeader(b);
      OrderedIsUnique(a[1..], b[1..], before);
    }
  }
}
