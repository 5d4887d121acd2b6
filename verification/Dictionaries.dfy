/** Python dictionaries as the benchmark builder uses them: an index from a list by a key, and a
    `defaultdict(list)`. */
module Dictionaries {
  import opened Ordering

  // ----- {key(x): x for x in s} -----

  ghost predicate UniqueOn<T>(s: seq<T>, key: T -> Id) {
    forall i, j :: 0 <= i < j < |s| ==> key(s[i]) != key(s[j])
  }

  /** The dictionary comprehension over a list: a later entry replaces an earlier one. */
  function IndexOn<T>(s: seq<T>, key: T -> Id): map<Id, T> {
    if s == [] then map[]
    else var last := s[|s| - 1]; IndexOn(s[..|s| - 1], key)[key(last) := last]
  }

  ghost predicate HasKey<T>(s: seq<T>, key: T -> Id, x: Id) {
    exists k :: 0 <= k < |s| && key(s[k]) == x
  }

  lemma {:induction false} HasKeySnoc<T>(front: seq<T>, last: T, key: T -> Id, x: Id)
    ensures HasKey(front + [last], key, x) <==> HasKey(front, key, x) || key(last) == x
  {
    var s := front + [last];
    assert s[|front|] == last;
    if HasKey(front, key, x) {
      var k :| 0 <= k < |front| && key(front[k]) == x;
      assert s[k] == front[k];
    }
  }

  lemma {:induction false} IndexKeys<T>(s: seq<T>, key: T -> Id, x: Id)
    ensures x in IndexOn(s, key) <==> HasKey(s, key, x)
    ensures x in IndexOn(s, key) ==> key(IndexOn(s, key)[x]) == x
  {
    if s != [] {
      var front, last := s[..|s| - 1], s[|s| - 1];
      IndexKeys(front, key, x);
      HasKeySnoc(front, last, key, x);
      assert s == front + [last];
    }
  }

  lemma {:induction false} UniqueOnSnoc<T>(front: seq<T>, last: T, key: T -> Id)
    requires !HasKey(front, key, key(last))
    ensures UniqueOn(front + [last], key) <==> UniqueOn(front, key)
  {
    var s := front + [last];
    assert forall k :: 0 <= k < |front| ==> s[k] == front[k];
    assert s[|front|] == last;
    if !UniqueOn(front, key) {
      var i, j :| 0 <= i < j < |front| && key(front[i]) == key(front[j]);
      assert key(s[i]) == key(s[j]);
    }
  }

  /** Comparing the sizes of the dictionary and the list detects duplicate keys exactly. */
  lemma {:induction false} IndexDetectsDuplicates<T>(s: seq<T>, key: T -> Id)
    ensures |IndexOn(s, key)| <= |s|
    ensures UniqueOn(s, key) <==> |IndexOn(s, key)| == |s|
  {
    if s != [] {
      var front, last := s[..|s| - 1], s[|s| - 1];
      IndexDetectsDuplicates(front, key);
      var m, x := IndexOn(front, key), key(last);
      assert s == front + [last];
      UpdateSize(m, x, last);
      IndexKeys(front, key, x);
      if x in m {
        var k :| 0 <= k < |front| && key(front[k]) == x;
        assert key(s[k]) == key(s[|s| - 1]);
      } else {
        UniqueOnSnoc(front, last, key);
      }
    }
  }

  lemma {:induction false} UpdateSize<K, V>(m: map<K, V>, x: K, v: V)
    ensures |m[x := v]| == if x in m then |m| else |m| + 1
  {
    assert m[x := v].Keys == m.Keys + {x};
    assert |m[x := v]| == |m[x := v].Keys| && |m| == |m.Keys|;
  }

  lemma {:induction false} IndexHoldsEntry<T>(s: seq<T>, key: T -> Id, k: nat)
    requires UniqueOn(s, key) && k < |s|
    ensures key(s[k]) in IndexOn(s, key) && IndexOn(s, key)[key(s[k])] == s[k]
  {
    if k < |s| - 1 {
      IndexHoldsEntry(s[..|s| - 1], key, k);
    }
  }

  /** Each key's entry is an element of the list with that key. */
  lemma {:induction false} IndexEntryListed<T>(s: seq<T>, key: T -> Id, x: Id)
    requires x in IndexOn(s, key)
    ensures IndexOn(s, key)[x] in s && key(IndexOn(s, key)[x]) == x
  {
    var front, last := s[..|s| - 1], s[|s| - 1];
    assert s == front + [last];
    if key(last) != x {
      IndexEntryListed(front, key, x);
    }
  }

  /** Whether keys repeat does not depend on the order. */
  lemma {:induction false} UniqueOnPermutation<T>(a: seq<T>, b: seq<T>, key: T -> Id)
    requires multiset(a) == multiset(b) && UniqueOn(a, key)
    ensures UniqueOn(b, key)
  {
    if i, j :| 0 <= i < j < |b| && key(b[i]) == key(b[j]) {
      assert b[i] in multiset(b) && b[j] in multiset(b);
      var k :| 0 <= k < |a| && a[k] == b[i];
      var l :| 0 <= l < |a| && a[l] == b[j];
      if k != l {
        assert false;
      }
      CountOfRepeat(b, i, j);
      var p, q := RepeatOfCount(a, b[i]);
    }
  }

  lemma {:induction false} CountOfRepeat<T>(s: seq<T>, i: nat, j: nat)
    requires i < j < |s| && s[i] == s[j]
    ensures multiset(s)[s[i]] >= 2
  {
    assert s == s[..i] + [s[i]] + s[i + 1..j] + [s[j]] + s[j + 1..];
  }

  lemma {:induction false} RepeatOfCount<T>(s: seq<T>, r: T) returns (i: nat, j: nat)
    requires multiset(s)[r] >= 2
    ensures i < j < |s| && s[i] == r && s[j] == r
  {
    i := 0;
    assert s == [s[0]] + s[1..];
    if s[0] == r {
      assert r in multiset(s[1..]);
      j :| 1 <= j < |s| && s[j] == r;
    } else {
      i, j := RepeatOfCount(s[1..], r);
      i, j := i + 1, j + 1;
    }
  }

  lemma {:induction false} PermutationKeepsElements<T>(a: seq<T>, b: seq<T>)
    requires multiset(a) == multiset(b)
    ensures Elements(a) == Elements(b)
  {
    assert forall x :: x in Elements(a) <==> x in multiset(a);
    assert forall x :: x in Elements(b) <==> x in multiset(b);
  }

  // ----- defaultdict(list) -----

  ghost predicate Holds<K>(lists: map<K, seq<Id>>, key: K, value: Id) {
    key in lists && value in lists[key]
  }

  /** `lists[key].append(value)`. */
  function Append<K(!new)>(lists: map<K, seq<Id>>, key: K, value: Id): (r: map<K, seq<Id>>)
    ensures r.Keys == lists.Keys + {key} && r[key] != []
    ensures forall k :: k in lists && k != key ==> r[k] == lists[k]
    ensures forall k, v :: Holds(r, k, v) <==> Holds(lists, k, v) || (k == key && v == value)
  {
    lists[key := (if key in lists then lists[key] else []) + [value]]
  }

  /** `lists.get(key, ())`. */
  function Get<K>(lists: map<K, seq<Id>>, key: K): seq<Id> {
    if key in lists then lists[key] else []
  }

  ghost predicate Distinct(s: seq<Id>) {
    forall i, j :: 0 <= i < j < |s| ==> s[i] != s[j]
  }

  /** An in-place list sort by an arbitrary comparison. */
  function SortWith(s: seq<Id>, atMost: (Id, Id) -> bool): (r: seq<Id>)
    ensures multiset(r) == multiset(s)
  {
    if s == [] then []
    else
      assert s == [s[0]] + s[1..];
      InsertWith(s[0], SortWith(s[1..], atMost), atMost)
  }

  function InsertWith(x: Id, s: seq<Id>, atMost: (Id, Id) -> bool): (r: seq<Id>)
    ensures multiset(r) == multiset(s) + multiset{x}
  {
    if s == [] then [x]
    else if atMost(x, s[0]) then [x] + s
    else
      assert s == [s[0]] + s[1..];
      [s[0]] + InsertWith(x, s[1..], atMost)
  }

  function SortLists<K>(lists: map<K, seq<Id>>, atMost: (Id, Id) -> bool): map<K, seq<Id>> {
    map k | k in lists :: SortWith(lists[k], atMost)
  }

  lemma {:induction false} SortListsHold<K>(lists: map<K, seq<Id>>, atMost: (Id, Id) -> bool, key: K, value: Id)
    ensures Holds(SortLists(lists, atMost), key, value) <==> Holds(lists, key, value)
  {
    if key in lists {
      var r := SortWith(lists[key], atMost);
      assert value in r <==> value in multiset(r);
      assert value in lists[key] <==> value in multiset(lists[key]);
    }
  }

  lemma {:induction false} DistinctPermutation(a: seq<Id>, b: seq<Id>)
    requires multiset(a) == multiset(b) && Distinct(a)
    ensures Distinct(b)
  {
    var key := (x: Id) => x;
    assert UniqueOn(a, key);
    UniqueOnPermutation(a, b, key);
    assert forall i, j :: 0 <= i < j < |b| ==> key(b[i]) != key(b[j]);
  }

  // ----- Sorting by a comparison -----

  ghost predicate SortedBy(s: seq<Id>, atMost: (Id, Id) -> bool) {
    forall i, j :: 0 <= i < j < |s| ==> atMost(s[i], s[j])
  }

  /** The comparison orders these identifiers, without ties between different ones. */
  ghost predicate Orders(atMost: (Id, Id) -> bool, ids: set<Id>) {
    && (forall x, y :: x in ids && y in ids ==> atMost(x, y) || atMost(y, x))
    && (forall x, y :: x in ids && y in ids && atMost(x, y) && atMost(y, x) ==> x == y)
    && (forall x, y, z :: x in ids && y in ids && z in ids && atMost(x, y) && atMost(y, z) ==> atMost(x, z))
  }

  lemma {:induction false} InsertWithSorts(x: Id, s: seq<Id>, atMost: (Id, Id) -> bool, ids: set<Id>)
    requires Orders(atMost, ids) && x in ids && (forall y :: y in s ==> y in ids) && SortedBy(s, atMost)
    ensures SortedBy(InsertWith(x, s, atMost), atMost)
  {
    if s == [] {
    } else if atMost(x, s[0]) {
      forall j | 0 <= j < |s| ensures atMost(x, s[j]) {
        assert s[j] in s && s[0] in s && (j == 0 || atMost(s[0], s[j]));
      }
    } else {
      var rest := InsertWith(x, s[1..], atMost);
      InsertWithSorts(x, s[1..], atMost, ids);
      assert s[0] in s;
      forall j | 0 <= j < |rest| ensures atMost(s[0], rest[j]) {
        assert rest[j] in multiset(rest);
        if rest[j] != x {
          var k :| 0 <= k < |s[1..]| && s[1..][k] == rest[j];
          assert atMost(s[0], s[k + 1]);
        }
      }
    }
  }

  lemma {:induction false} SortWithSorts(s: seq<Id>, atMost: (Id, Id) -> bool, ids: set<Id>)
    requires Orders(atMost, ids) && forall y :: y in s ==> y in ids
    ensures SortedBy(SortWith(s, atMost), atMost)
  {
    if s != [] {
      SortWithSorts(s[1..], atMost, ids);
      var rest := SortWith(s[1..], atMost);
      forall y | y in rest ensures y in ids {
        assert y in multiset(rest);
        assert y in s[1..];
      }
      assert s[0] in s;
      InsertWithSorts(s[0], rest, atMost, ids);
    }
  }

  /** Two sorted listings of the same identifiers, each once, are the same. */
  lemma {:induction false} SortedIsUnique(a: seq<Id>, b: seq<Id>, atMost: (Id, Id) -> bool, ids: set<Id>)
    requires Orders(atMost, ids) && Distinct(a) && Distinct(b) && SortedBy(a, atMost) && SortedBy(b, atMost)
    requires (forall x :: x in a <==> x in ids) && (forall x :: x in b <==> x in ids)
    ensures a == b
    decreases |a|
  {
    if a == [] {
      assert forall k :: 0 <= k < |b| ==> b[k] in b;
    } else {
      HeadsAgree(a, b, atMost, ids);
      TailsAgree(a, b, ids);
      SortedIsUnique(a[1..], b[1..], atMost, ids - {a[0]});
      assert a == [a[0]] + a[1..] && b == [b[0]] + b[1..];
    }
  }

  lemma {:induction false} HeadsAgree(a: seq<Id>, b: seq<Id>, atMost: (Id, Id) -> bool, ids: set<Id>)
    requires a != [] && Orders(atMost, ids) && SortedBy(a, atMost) && SortedBy(b, atMost)
    requires (forall x :: x in a <==> x in ids) && (forall x :: x in b <==> x in ids)
    ensures b != [] && a[0] == b[0]
  {
    assert a[0] in a && a[0] in b;
    assert b[0] in b && b[0] in a;
    var i :| 0 <= i < |b| && b[i] == a[0];
    var j :| 0 <= j < |a| && a[j] == b[0];
    assert i == 0 || atMost(b[0], a[0]);
    assert j == 0 || atMost(a[0], b[0]);
  }

  lemma {:induction false} TailsAgree(a: seq<Id>, b: seq<Id>, ids: set<Id>)
    requires a != [] && b != [] && a[0] == b[0] && Distinct(a) && Distinct(b)
    requires (forall x :: x in a <==> x in ids) && (forall x :: x in b <==> x in ids)
    ensures Distinct(a[1..]) && Distinct(b[1..])
    ensures (forall x :: x in a[1..] <==> x in ids - {a[0]}) && (forall x :: x in b[1..] <==> x in ids - {a[0]})
  {
    TailMembers(a);
    TailMembers(b);
  }

  lemma {:induction false} TailMembers(s: seq<Id>)
    requires s != [] && Distinct(s)
    ensures Distinct(s[1..]) && forall x :: x in s[1..] <==> x in s && x != s[0]
  {
    forall x ensures x in s[1..] <==> x in s && x != s[0] {
      if x in s && x != s[0] {
        var k :| 0 <= k < |s| && s[k] == x;
        assert s[1..][k - 1] == x;
      }
      if x in s[1..] {
        var k :| 0 <= k < |s[1..]| && s[1..][k] == x;
        assert s[k + 1] == x && s[k + 1] != s[0];
      }
    }
  }

  lemma {:induction false} TextOrders(ids: set<Id>)
    ensures Orders(AtMost, ids)
  {
    forall x, y ensures AtMost(x, y) || AtMost(y, x) {
      LessIsTotal(x, y);
    }
    forall x, y | AtMost(x, y) && AtMost(y, x) ensures x == y {
      AtMostIsAntisymmetric(x, y);
    }
    forall x, y, z | AtMost(x, y) && AtMost(y, z) ensures AtMost(x, z) {
      AtMostIsTransitive(x, y, z);
    }
  }
}
