/** The interval sweep of src/echoes/benchmarks/leakage.py.  It visits real interval starts in order and
    keeps the open intervals in a priority queue beside a counter of the relationships that own them. */
module LeakageSweep {
  import opened Ordering

  /** A closed interval of ordinals in one book, owned by one relationship. */
  datatype Interval = Interval(book: string, start: int, end: int, relationshipId: Id)

  /** One emitted overlap group: its key is `book|ordinal`, its members are the owners in sorted order. */
  datatype OverlapGroup = OverlapGroup(book: string, ordinal: int, members: seq<Id>)

  // ----- Specification -----

  predicate Covers(i: Interval, book: string, ordinal: int) {
    i.book == book && i.start <= ordinal <= i.end
  }

  /** The relationships owning an interval that contains the ordinal. */
  ghost function Stabbed(intervals: set<Interval>, book: string, ordinal: int): set<Id> {
    set i | i in intervals && Covers(i, book, ordinal) :: i.relationshipId
  }

  ghost predicate IsStart(intervals: set<Interval>, book: string, ordinal: int) {
    exists i :: i in intervals && i.book == book && i.start == ordinal
  }

  predicate KeyBefore(a: OverlapGroup, b: OverlapGroup) {
    Less(a.book, b.book) || (a.book == b.book && a.ordinal < b.ordinal)
  }

  /** Groups appear in key order; each sits at a real start and holds exactly the relationships stabbed
      there, at least two; and every start that stabs two relationships has its group. */
  ghost predicate IsSweep(groups: seq<OverlapGroup>, intervals: set<Interval>) {
    && KeysAscend(groups)
    && (forall n :: 0 <= n < |groups| ==>
          IsStart(intervals, groups[n].book, groups[n].ordinal) && HoldsStabbed(groups[n], intervals))
    && (forall i :: i in intervals && |Stabbed(intervals, i.book, i.start)| >= 2 ==>
          HasGroup(groups, i.book, i.start))
  }

  ghost predicate HoldsStabbed(g: OverlapGroup, intervals: set<Interval>) {
    && g.members == Enumeration(Stabbed(intervals, g.book, g.ordinal))
    && |Stabbed(intervals, g.book, g.ordinal)| >= 2
  }

  ghost predicate HasGroup(groups: seq<OverlapGroup>, book: string, ordinal: int) {
    exists n :: 0 <= n < |groups| && groups[n].book == book && groups[n].ordinal == ordinal
  }

  // ----- The sort key (book, start, end, relationship) -----

  predicate Before(a: Interval, b: Interval) {
    || Less(a.book, b.book)
    || (a.book == b.book && a.start < b.start)
    || (a.book == b.book && a.start == b.start && a.end < b.end)
    || (a.book == b.book && a.start == b.start && a.end == b.end && AtMost(a.relationshipId, b.relationshipId))
  }

  lemma {:induction false} BeforeIsTotal(a: Interval, b: Interval)
    ensures Before(a, b) || Before(b, a)
  {
    LessIsTotal(a.book, b.book);
    LessIsTotal(a.relationshipId, b.relationshipId);
  }

  lemma {:induction false} BeforeIsTransitive(a: Interval, b: Interval, c: Interval)
    requires Before(a, b) && Before(b, c)
    ensures Before(a, c)
  {
    LessIsIrreflexive(a.book);
    if Less(a.book, b.book) && Less(b.book, c.book) { LessIsTransitive(a.book, b.book, c.book); }
    if AtMost(a.relationshipId, b.relationshipId) && AtMost(b.relationshipId, c.relationshipId) {
      AtMostIsTransitive(a.relationshipId, b.relationshipId, c.relationshipId);
    }
  }

  ghost predicate InOrder(s: seq<Interval>) {
    forall i, j :: 0 <= i < j < |s| ==> Before(s[i], s[j])
  }

  function InsertInterval(x: Interval, s: seq<Interval>): (r: seq<Interval>)
    requires InOrder(s)
    ensures InOrder(r) && multiset(r) == multiset(s) + multiset{x}
  {
    if s == [] then [x]
    else if Before(x, s[0]) then
      InsertInFront(x, s);
      [x] + s
    else
      assert s == [s[0]] + s[1..];
      var rest := InsertInterval(x, s[1..]);
      InsertBehind(x, s, rest);
      [s[0]] + rest
  }

  lemma {:induction false} InsertInFront(x: Interval, s: seq<Interval>)
    requires s != [] && InOrder(s) && Before(x, s[0])
    ensures InOrder([x] + s)
  {
    forall j | 0 <= j < |s| ensures Before(x, s[j]) {
      if j > 0 { BeforeIsTransitive(x, s[0], s[j]); }
    }
  }

  lemma {:induction false} InsertBehind(x: Interval, s: seq<Interval>, rest: seq<Interval>)
    requires s != [] && InOrder(s) && !Before(x, s[0])
    requires InOrder(rest) && multiset(rest) == multiset(s[1..]) + multiset{x}
    ensures InOrder([s[0]] + rest)
  {
    BeforeIsTotal(x, s[0]);
    forall j | 0 <= j < |rest| ensures Before(s[0], rest[j]) {
      assert rest[j] in multiset(rest);
      if rest[j] != x {
        var k :| 0 <= k < |s[1..]| && s[1..][k] == rest[j];
        assert s[k + 1] == rest[j];
      }
    }
  }

  /** `intervals.sort(key=...)`. */
  function SortIntervals(s: seq<Interval>): (r: seq<Interval>)
    ensures InOrder(r) && multiset(r) == multiset(s)
  {
    if s == [] then []
    else
      assert s == [s[0]] + s[1..];
      InsertInterval(s[0], SortIntervals(s[1..]))
  }

  // ----- The priority queue: heapq's entries (end, serial, relationship), least first -----

  datatype Entry = Entry(end: int, serial: nat, relationshipId: Id)

  predicate EntryBefore(a: Entry, b: Entry) {
    a.end < b.end || (a.end == b.end && a.serial < b.serial)
  }

  ghost predicate IsQueue(heap: seq<Entry>) {
    forall i, j :: 0 <= i < j < |heap| ==> EntryBefore(heap[i], heap[j])
  }

  /** `heapq.heappush`: serial numbers are fresh, so entries never tie. */
  function Push(heap: seq<Entry>, e: Entry): (r: seq<Entry>)
    requires IsQueue(heap) && forall k :: 0 <= k < |heap| ==> heap[k].serial < e.serial
    ensures IsQueue(r) && multiset(r) == multiset(heap) + multiset{e}
  {
    if heap == [] then [e]
    else if EntryBefore(e, heap[0]) then [e] + heap
    else
      assert heap == [heap[0]] + heap[1..];
      var rest := Push(heap[1..], e);
      PushBehind(heap, e, rest);
      [heap[0]] + rest
  }

  lemma {:induction false} PushBehind(heap: seq<Entry>, e: Entry, rest: seq<Entry>)
    requires heap != [] && IsQueue(heap) && !EntryBefore(e, heap[0]) && heap[0].serial < e.serial
    requires IsQueue(rest) && multiset(rest) == multiset(heap[1..]) + multiset{e}
    ensures IsQueue([heap[0]] + rest)
  {
    forall j | 0 <= j < |rest| ensures EntryBefore(heap[0], rest[j]) {
      assert rest[j] in multiset(rest);
      if rest[j] != e {
        var k :| 0 <= k < |heap[1..]| && heap[1..][k] == rest[j];
        assert heap[k + 1] == rest[j];
      }
    }
  }

  /** How many queue entries a relationship owns. */
  ghost function Owned(heap: seq<Entry>, x: Id): nat {
    if heap == [] then 0 else (if heap[0].relationshipId == x then 1 else 0) + Owned(heap[1..], x)
  }

  lemma {:induction false} OwnedPositive(heap: seq<Entry>, x: Id)
    ensures Owned(heap, x) > 0 <==> exists k :: 0 <= k < |heap| && heap[k].relationshipId == x
  {
    if heap != [] {
      OwnedPositive(heap[1..], x);
      if k :| 0 <= k < |heap[1..]| && heap[1..][k].relationshipId == x {
        assert heap[k + 1].relationshipId == x;
      }
      if k :| 0 <= k < |heap| && heap[k].relationshipId == x {
        if k > 0 { assert heap[1..][k - 1].relationshipId == x; }
      }
    }
  }

  lemma {:induction false} OwnedAfterPush(heap: seq<Entry>, e: Entry, x: Id)
    requires IsQueue(heap) && forall k :: 0 <= k < |heap| ==> heap[k].serial < e.serial
    ensures Owned(Push(heap, e), x) == Owned(heap, x) + if e.relationshipId == x then 1 else 0
  {
    if heap != [] && !EntryBefore(e, heap[0]) {
      OwnedAfterPush(heap[1..], e, x);
      var rest := Push(heap[1..], e);
      assert ([heap[0]] + rest)[1..] == rest;
    } else {
      assert ([e] + heap)[1..] == heap;
    }
  }

  /** `active_counts`, a Counter whose zero entries are deleted, mirrors the queue. */
  ghost predicate Mirrors(counts: map<Id, nat>, heap: seq<Entry>) {
    forall x :: (if x in counts then counts[x] else 0) == Owned(heap, x) && (x in counts ==> counts[x] > 0)
  }

  /** Drop entries that ended before the ordinal. */
  method PopExpired(heap: seq<Entry>, counts: map<Id, nat>, ordinal: int)
    returns (open: seq<Entry>, openCounts: map<Id, nat>)
    requires IsQueue(heap) && Mirrors(counts, heap)
    ensures IsQueue(open) && Mirrors(openCounts, open)
    ensures forall e :: e in open <==> e in heap && e.end >= ordinal
  {
    open, openCounts := heap, counts;
    var popped := 0;
    while open != [] && open[0].end < ordinal
      invariant popped <= |heap| && open == heap[popped..]
      invariant IsQueue(open) && Mirrors(openCounts, open)
      invariant forall k :: 0 <= k < popped ==> heap[k].end < ordinal
      decreases |open|
    {
      var x := open[0].relationshipId;
      assert Owned(open, x) > 0;
      ghost var before, countsBefore := open, openCounts;
      openCounts := openCounts[x := openCounts[x] - 1];
      if openCounts[x] == 0 {
        openCounts := map y | y in openCounts && y != x :: openCounts[y];
      }
      open := open[1..];
      popped := popped + 1;
      assert forall y :: Owned(before, y) == Owned(open, y) + if y == x then 1 else 0;
    }
    forall e ensures e in open <==> e in heap && e.end >= ordinal {
      if e in open {
        var k :| 0 <= k < |open| && open[k] == e;
        assert heap[popped + k] == e;
      }
      if e in heap && e.end >= ordinal {
        var k :| 0 <= k < |heap| && heap[k] == e;
        assert open[k - popped] == e;
      }
    }
  }

  // ----- The sweep -----

  ghost function EntryOf(s: seq<Interval>, k: nat): Entry
    requires k < |s|
  {
    Entry(s[k].end, k, s[k].relationshipId)
  }

  /** The queue holds exactly the first i intervals of the book that reach the ordinal. */
  ghost predicate OpenAt(heap: seq<Entry>, s: seq<Interval>, i: nat, book: string, ordinal: int)
    requires i <= |s|
  {
    && (forall e :: e in heap ==>
          e.serial < i && e == EntryOf(s, e.serial) && s[e.serial].book == book && s[e.serial].end >= ordinal)
    && (forall k :: 0 <= k < i && s[k].book == book && s[k].end >= ordinal ==> EntryOf(s, k) in heap)
  }

  ghost predicate SameKey(a: Interval, b: Interval) {
    a.book == b.book && a.start == b.start
  }

  /** Push every interval starting at the ordinal of s[i]; j is the first index past them. */
  method PushStarting(s: seq<Interval>, i: nat, heap: seq<Entry>, counts: map<Id, nat>)
    returns (j: nat, open: seq<Entry>, openCounts: map<Id, nat>)
    requires i < |s| && InOrder(s) && forall k :: 0 <= k < |s| ==> s[k].start <= s[k].end
    requires IsQueue(heap) && Mirrors(counts, heap) && OpenAt(heap, s, i, s[i].book, s[i].start)
    ensures i < j <= |s| && (forall k :: i <= k < j ==> SameKey(s[k], s[i])) && (j < |s| ==> !SameKey(s[j], s[i]))
    ensures IsQueue(open) && Mirrors(openCounts, open) && OpenAt(open, s, j, s[i].book, s[i].start)
  {
    j, open, openCounts := i, heap, counts;
    while j < |s| && s[j].book == s[i].book && s[j].start == s[i].start
      invariant i <= j <= |s| && (forall k :: i <= k < j ==> SameKey(s[k], s[i]))
      invariant IsQueue(open) && Mirrors(openCounts, open) && OpenAt(open, s, j, s[i].book, s[i].start)
    {
      var e := Entry(s[j].end, j, s[j].relationshipId);
      PushKeepsOpen(s, j, open, e, s[i].book, s[i].start);
      MirrorsAfterPush(open, openCounts, e);
      open := Push(open, e);
      openCounts := openCounts[e.relationshipId :=
        (if e.relationshipId in openCounts then openCounts[e.relationshipId] else 0) + 1];
      j := j + 1;
    }
  }

  lemma {:induction false} PushKeepsOpen(s: seq<Interval>, j: nat, heap: seq<Entry>, e: Entry, book: string,
                                         ordinal: int)
    requires j < |s| && IsQueue(heap) && OpenAt(heap, s, j, book, ordinal)
    requires e == EntryOf(s, j) && s[j].book == book && s[j].end >= ordinal
    ensures forall k :: 0 <= k < |heap| ==> heap[k].serial < e.serial
    ensures OpenAt(Push(heap, e), s, j + 1, book, ordinal)
  {
    assert forall k :: 0 <= k < |heap| ==> heap[k] in heap;
    PushContents(heap, e);
    OpenWithNewest(s, j, heap, Push(heap, e), book, ordinal);
  }

  lemma {:induction false} PushContents(heap: seq<Entry>, e: Entry)
    requires IsQueue(heap) && forall k :: 0 <= k < |heap| ==> heap[k].serial < e.serial
    ensures forall f :: f in Push(heap, e) <==> f in heap || f == e
  {
    forall f ensures f in Push(heap, e) <==> f in heap || f == e {
      assert f in Push(heap, e) <==> f in multiset(Push(heap, e));
      assert f in heap <==> f in multiset(heap);
    }
  }

  lemma {:induction false} OpenWithNewest(s: seq<Interval>, j: nat, heap: seq<Entry>, after: seq<Entry>, book: string,
                                          ordinal: int)
    requires j < |s| && OpenAt(heap, s, j, book, ordinal) && s[j].book == book && s[j].end >= ordinal
    requires forall f :: f in after <==> f in heap || f == EntryOf(s, j)
    ensures OpenAt(after, s, j + 1, book, ordinal)
  {
  }

  lemma {:induction false} MirrorsAfterPush(heap: seq<Entry>, counts: map<Id, nat>, e: Entry)
    requires IsQueue(heap) && Mirrors(counts, heap) && forall k :: 0 <= k < |heap| ==> heap[k].serial < e.serial
    ensures Mirrors(counts[e.relationshipId :=
            (if e.relationshipId in counts then counts[e.relationshipId] else 0) + 1],
                    Push(heap, e))
  {
    forall x ensures Owned(Push(heap, e), x) == Owned(heap, x) + if e.relationshipId == x then 1 else 0 {
      OwnedAfterPush(heap, e, x);
    }
  }

  /** Sorted order: among intervals of the run's book, exactly those before j start at or before it. */
  lemma {:induction false} StartsBeforeRunEnd(s: seq<Interval>, i: nat, j: nat, k: nat)
    requires InOrder(s) && i < j <= |s| && k < |s|
    requires (forall m :: i <= m < j ==> SameKey(s[m], s[i])) && (j < |s| ==> !SameKey(s[j], s[i]))
    ensures s[k].book == s[i].book ==> (k < j <==> s[k].start <= s[i].start)
  {
    LessIsIrreflexive(s[i].book);
    if s[k].book == s[i].book && k >= j {
      assert Before(s[i], s[j]);
      if k > j {
        assert Before(s[j], s[k]);
        assert Before(s[i], s[k]);
        if Less(s[i].book, s[j].book) {
          if Less(s[j].book, s[k].book) { LessIsTransitive(s[i].book, s[j].book, s[k].book); }
        }
      }
    }
  }

  /** After the pushes the counter's keys are exactly the relationships stabbed at the start. */
  lemma {:induction false} CountedAreStabbed(s: seq<Interval>, i: nat, j: nat, heap: seq<Entry>, counts: map<Id, nat>,
                                             x: Id)
    requires InOrder(s) && i < j <= |s|
    requires (forall m :: i <= m < j ==> SameKey(s[m], s[i])) && (j < |s| ==> !SameKey(s[j], s[i]))
    requires Mirrors(counts, heap) && OpenAt(heap, s, j, s[i].book, s[i].start)
    ensures x in counts <==> x in Stabbed(Elements(s), s[i].book, s[i].start)
  {
    OwnedPositive(heap, x);
    assert x in counts <==> Owned(heap, x) > 0;
    if x in counts {
      var k :| 0 <= k < |heap| && heap[k].relationshipId == x;
      assert heap[k] in heap;
      var n := heap[k].serial;
      StartsBeforeRunEnd(s, i, j, n);
      assert s[n] in Elements(s) && Covers(s[n], s[i].book, s[i].start);
    }
    if x in Stabbed(Elements(s), s[i].book, s[i].start) {
      var owner :| owner in Elements(s) && Covers(owner, s[i].book, s[i].start) && owner.relationshipId == x;
      var n :| 0 <= n < |s| && s[n] == owner;
      StartsBeforeRunEnd(s, i, j, n);
      assert EntryOf(s, n) in heap;
      var k :| 0 <= k < |heap| && heap[k] == EntryOf(s, n);
    }
  }

  /** Moving on to a new start keeps what is open: nothing of another book, nothing that already ended. */
  lemma {:induction false} OpenCarriesOver(s: seq<Interval>, i: nat, heap: seq<Entry>, kept: seq<Entry>)
    requires InOrder(s) && 0 < i < |s| && OpenAt(heap, s, i, s[i - 1].book, s[i - 1].start)
    requires if s[i].book == s[i - 1].book then (forall e :: e in kept <==> e in heap && e.end >= s[i].start)
             else kept == []
    ensures OpenAt(kept, s, i, s[i].book, s[i].start)
  {
    LessIsIrreflexive(s[i].book);
    assert Before(s[i - 1], s[i]);
    forall k | 0 <= k < i && s[k].book == s[i].book && s[k].end >= s[i].start ensures EntryOf(s, k) in kept {
      if s[i - 1].book != s[i].book && k < i - 1 {
        assert Before(s[k], s[i - 1]);
        LessIsAsymmetric(s[i - 1].book, s[i].book);
      }
    }
  }

  ghost predicate StartAmong(s: seq<Interval>, i: nat, book: string, ordinal: int)
    requires i <= |s|
  {
    exists k :: 0 <= k < i && s[k].book == book && s[k].start == ordinal
  }

  /** What the groups emitted for the first i intervals satisfy. */
  ghost predicate SweptTo(groups: seq<OverlapGroup>, s: seq<Interval>, i: nat)
    requires i <= |s|
  {
    && KeysAscend(groups)
    && (forall n :: 0 <= n < |groups| ==>
          StartAmong(s, i, groups[n].book, groups[n].ordinal) && HoldsStabbed(groups[n], Elements(s)))
    && (forall k :: 0 <= k < i && |Stabbed(Elements(s), s[k].book, s[k].start)| >= 2 ==>
          HasGroup(groups, s[k].book, s[k].start))
  }

  lemma {:induction false} EarlierKeysComeFirst(s: seq<Interval>, i: nat, k: nat)
    requires InOrder(s) && k < i < |s| && !SameKey(s[i - 1], s[i])
    ensures Less(s[k].book, s[i].book) || (s[k].book == s[i].book && s[k].start < s[i].start)
  {
    assert Before(s[i - 1], s[i]);
    if k < i - 1 {
      assert Before(s[k], s[i - 1]);
      if Less(s[k].book, s[i - 1].book) && Less(s[i - 1].book, s[i].book) {
        LessIsTransitive(s[k].book, s[i - 1].book, s[i].book);
      }
    }
  }

  /** What a visit emits. */
  ghost predicate EmitsAt(more: seq<OverlapGroup>, s: seq<Interval>, i: nat)
    requires i < |s|
  {
    var stabbed := Stabbed(Elements(s), s[i].book, s[i].start);
    more == if |stabbed| >= 2 then [OverlapGroup(s[i].book, s[i].start, Enumeration(stabbed))] else []
  }

  lemma {:induction false} EarlierGroupComesFirst(g: OverlapGroup, s: seq<Interval>, i: nat, next: OverlapGroup)
    requires InOrder(s) && 0 < i < |s| && !SameKey(s[i - 1], s[i])
    requires StartAmong(s, i, g.book, g.ordinal) && next.book == s[i].book && next.ordinal == s[i].start
    ensures KeyBefore(g, next)
  {
    var k :| 0 <= k < i && s[k].book == g.book && s[k].start == g.ordinal;
    EarlierKeysComeFirst(s, i, k);
  }

  lemma {:induction false} KeysStayOrdered(groups: seq<OverlapGroup>, s: seq<Interval>, i: nat, more: seq<OverlapGroup>)
    requires InOrder(s) && i < |s| && SweptTo(groups, s, i) && (i > 0 ==> !SameKey(s[i - 1], s[i]))
    requires EmitsAt(more, s, i)
    ensures KeysAscend(groups + more)
  {
    if more != [] {
      assert |more| == 1 && more[0].book == s[i].book && more[0].ordinal == s[i].start;
      forall a | 0 <= a < |groups| ensures KeyBefore(groups[a], more[0]) {
        EarlierGroupComesFirst(groups[a], s, i, more[0]);
      }
      KeysAscendSnoc(groups, more[0]);
      assert more == [more[0]];
    } else {
      assert groups + more == groups;
    }
  }

  lemma {:induction false} KeysAscendSnoc(groups: seq<OverlapGroup>, last: OverlapGroup)
    requires KeysAscend(groups) && forall a :: 0 <= a < |groups| ==> KeyBefore(groups[a], last)
    ensures KeysAscend(groups + [last])
  {
  }

  lemma {:induction false} GroupsStaySound(groups: seq<OverlapGroup>, s: seq<Interval>, i: nat, j: nat,
                                           more: seq<OverlapGroup>)
    requires i < j <= |s| && SweptTo(groups, s, i) && EmitsAt(more, s, i)
    ensures forall n :: 0 <= n < |groups + more| ==>
              && StartAmong(s, j, (groups + more)[n].book, (groups + more)[n].ordinal)
              && HoldsStabbed((groups + more)[n], Elements(s))
  {
    var after := groups + more;
    forall n | 0 <= n < |after|
      ensures StartAmong(s, j, after[n].book, after[n].ordinal) && HoldsStabbed(after[n], Elements(s))
    {
      if n < |groups| {
        assert StartAmong(s, i, groups[n].book, groups[n].ordinal) && after[n] == groups[n];
      }
    }
  }

  lemma {:induction false} HasGroupIn(groups: seq<OverlapGroup>, more: seq<OverlapGroup>, book: string, ordinal: int)
    requires HasGroup(groups, book, ordinal) || HasGroup(more, book, ordinal)
    ensures HasGroup(groups + more, book, ordinal)
  {
    var after := groups + more;
    if HasGroup(groups, book, ordinal) {
      var n :| 0 <= n < |groups| && groups[n].book == book && groups[n].ordinal == ordinal;
      assert after[n] == groups[n];
    } else {
      var n :| 0 <= n < |more| && more[n].book == book && more[n].ordinal == ordinal;
      assert after[|groups| + n] == more[n];
    }
  }

  lemma {:induction false} EmitsGroup(more: seq<OverlapGroup>, s: seq<Interval>, i: nat, k: nat)
    requires i <= k < |s| && EmitsAt(more, s, i) && SameKey(s[k], s[i])
    requires |Stabbed(Elements(s), s[k].book, s[k].start)| >= 2
    ensures HasGroup(more, s[k].book, s[k].start)
  {
    assert more[0].book == s[k].book && more[0].ordinal == s[k].start;
  }

  lemma {:induction false} SweptOneMore(groups: seq<OverlapGroup>, s: seq<Interval>, i: nat, j: nat,
                                        more: seq<OverlapGroup>)
    requires InOrder(s) && i < j <= |s| && SweptTo(groups, s, i) && (i > 0 ==> !SameKey(s[i - 1], s[i]))
    requires forall k :: i <= k < j ==> SameKey(s[k], s[i])
    requires EmitsAt(more, s, i)
    ensures SweptTo(groups + more, s, j)
  {
    KeysStayOrdered(groups, s, i, more);
    GroupsStaySound(groups, s, i, j, more);
    forall k | 0 <= k < j && |Stabbed(Elements(s), s[k].book, s[k].start)| >= 2
      ensures HasGroup(groups + more, s[k].book, s[k].start)
    {
      if k >= i { EmitsGroup(more, s, i, k); }
      HasGroupIn(groups, more, s[k].book, s[k].start);
    }
  }

  lemma {:induction false} SweptIsSweep(groups: seq<OverlapGroup>, s: seq<Interval>)
    requires SweptTo(groups, s, |s|)
    ensures IsSweep(groups, Elements(s))
  {
    forall n | 0 <= n < |groups| ensures IsStart(Elements(s), groups[n].book, groups[n].ordinal) {
      assert StartAmong(s, |s|, groups[n].book, groups[n].ordinal);
      var k :| 0 <= k < |s| && s[k].book == groups[n].book && s[k].start == groups[n].ordinal;
      assert s[k] in Elements(s);
    }
  }

  /** The visit of one start: expire, push, and emit a group when two relationships are open. */
  method VisitStart(s: seq<Interval>, i: nat, heap: seq<Entry>, counts: map<Id, nat>)
    returns (j: nat, open: seq<Entry>, openCounts: map<Id, nat>, emitted: seq<OverlapGroup>)
    requires i < |s| && InOrder(s) && forall k :: 0 <= k < |s| ==> s[k].start <= s[k].end
    requires IsQueue(heap) && Mirrors(counts, heap)
    requires if i == 0 then heap == [] else OpenAt(heap, s, i, s[i - 1].book, s[i - 1].start)
    ensures i < j <= |s| && (forall k :: i <= k < j ==> SameKey(s[k], s[i])) && (j < |s| ==> !SameKey(s[j], s[i]))
    ensures IsQueue(open) && Mirrors(openCounts, open) && OpenAt(open, s, j, s[i].book, s[i].start)
    ensures EmitsAt(emitted, s, i)
  {
    open, openCounts := heap, counts;
    if i == 0 || s[i].book != s[i - 1].book {
      open, openCounts := [], map[];
    }
    open, openCounts := PopExpired(open, openCounts, s[i].start);
    assert open == [] || open[0] in open;
    if i > 0 {
      OpenCarriesOver(s, i, heap, open);
    }
    j, open, openCounts := PushStarting(s, i, open, openCounts);
    forall x ensures x in openCounts <==> x in Stabbed(Elements(s), s[i].book, s[i].start) {
      CountedAreStabbed(s, i, j, open, openCounts, x);
    }
    assert openCounts.Keys == Stabbed(Elements(s), s[i].book, s[i].start);
    assert |openCounts| == |openCounts.Keys|;
    emitted := if |openCounts| < 2 then [] else [OverlapGroup(s[i].book, s[i].start, Enumeration(openCounts.Keys))];
  }

  lemma {:induction false} SortingKeepsIntervals(intervals: seq<Interval>, s: seq<Interval>)
    requires multiset(s) == multiset(intervals)
    requires forall k :: 0 <= k < |intervals| ==> intervals[k].start <= intervals[k].end
    ensures Elements(s) == Elements(intervals)
    ensures forall k :: 0 <= k < |s| ==> s[k].start <= s[k].end
  {
    assert forall x :: x in Elements(s) <==> x in multiset(s);
    assert forall x :: x in Elements(intervals) <==> x in multiset(intervals);
    assert forall k :: 0 <= k < |s| ==> s[k] in Elements(s);
  }

  /** The generator `_atomic_overlap_group_rows`, one group per emitted key. */
  method AtomicOverlapGroups(intervals: seq<Interval>) returns (groups: seq<OverlapGroup>)
    requires forall k :: 0 <= k < |intervals| ==> intervals[k].start <= intervals[k].end
    ensures IsSweep(groups, Elements(intervals))
  {
    var s := SortIntervals(intervals);
    SortingKeepsIntervals(intervals, s);
    groups := [];
    var heap: seq<Entry>, counts: map<Id, nat> := [], map[];
    var i := 0;
    while i < |s|
      invariant 0 <= i <= |s|
      invariant IsQueue(heap) && Mirrors(counts, heap)
      invariant if i == 0 then heap == [] else OpenAt(heap, s, i, s[i - 1].book, s[i - 1].start)
      invariant 0 < i < |s| ==> !SameKey(s[i - 1], s[i])
      invariant SweptTo(groups, s, i)
    {
      var j, emitted;
      j, heap, counts, emitted := VisitStart(s, i, heap, counts);
      SweptOneMore(groups, s, i, j, emitted);
      groups := groups + emitted;
      assert SameKey(s[j - 1], s[i]);
      i := j;
    }
    SweptIsSweep(groups, s);
  }

  // ----- What the sweep means -----

  ghost predicate Intersect(a: Interval, b: Interval) {
    a.book == b.book && a.start <= b.end && b.start <= a.end
  }

  /** Two relationships own intersecting intervals in one book. */
  ghost predicate Overlap(intervals: set<Interval>, x: Id, y: Id) {
    exists a, b :: a in intervals && b in intervals && a.relationshipId == x && b.relationshipId == y && Intersect(a, b)
  }

  ghost predicate ShareGroup(groups: seq<OverlapGroup>, x: Id, y: Id) {
    exists n :: 0 <= n < |groups| && x in groups[n].members && y in groups[n].members
  }

  lemma {:induction false} TwoStabbed(intervals: set<Interval>, book: string, ordinal: int, x: Id, y: Id)
    requires x != y && x in Stabbed(intervals, book, ordinal) && y in Stabbed(intervals, book, ordinal)
    ensures |Stabbed(intervals, book, ordinal)| >= 2
  {
    var s := Stabbed(intervals, book, ordinal);
    assert s == {x, y} + (s - {x, y});
    assert |s| == |{x, y}| + |s - {x, y}|;
  }

  lemma {:induction false} SharedGroupOverlaps(groups: seq<OverlapGroup>, intervals: set<Interval>, x: Id, y: Id)
    requires IsSweep(groups, intervals) && ShareGroup(groups, x, y)
    ensures Overlap(intervals, x, y)
  {
    var n :| 0 <= n < |groups| && x in groups[n].members && y in groups[n].members;
    var book, ordinal := groups[n].book, groups[n].ordinal;
    assert HoldsStabbed(groups[n], intervals);
    EnumerationHolds(Stabbed(intervals, book, ordinal), x);
    EnumerationHolds(Stabbed(intervals, book, ordinal), y);
    var a :| a in intervals && Covers(a, book, ordinal) && a.relationshipId == x;
    var b :| b in intervals && Covers(b, book, ordinal) && b.relationshipId == y;
    assert Intersect(a, b);
  }

  lemma {:induction false} OverlapSharesGroup(groups: seq<OverlapGroup>, intervals: set<Interval>, a: Interval,
                                              b: Interval)
    requires IsSweep(groups, intervals) && a in intervals && b in intervals && a.relationshipId != b.relationshipId
    requires a.start <= a.end && b.start <= b.end && Intersect(a, b)
    ensures ShareGroup(groups, a.relationshipId, b.relationshipId)
  {
    var later := if a.start <= b.start then b else a;
    assert Covers(a, later.book, later.start) && Covers(b, later.book, later.start);
    TwoStabbed(intervals, later.book, later.start, a.relationshipId, b.relationshipId);
    assert HasGroup(groups, later.book, later.start);
    var n :| 0 <= n < |groups| && groups[n].book == later.book && groups[n].ordinal == later.start;
    assert HoldsStabbed(groups[n], intervals);
    EnumerationHolds(Stabbed(intervals, later.book, later.start), a.relationshipId);
    EnumerationHolds(Stabbed(intervals, later.book, later.start), b.relationshipId);
  }

  /** The sweep replaces all-pairs overlap detection: distinct relationships share an emitted group if and
      only if they own intersecting intervals in one book. */
  lemma {:induction false} SharedGroupIsOverlap(groups: seq<OverlapGroup>, intervals: set<Interval>, x: Id, y: Id)
    requires IsSweep(groups, intervals) && x != y
    requires forall i :: i in intervals ==> i.start <= i.end
    ensures ShareGroup(groups, x, y) <==> Overlap(intervals, x, y)
  {
    if ShareGroup(groups, x, y) {
      SharedGroupOverlaps(groups, intervals, x, y);
    }
    if Overlap(intervals, x, y) {
      var a, b :| a in intervals && b in intervals && a.relationshipId == x && b.relationshipId == y && Intersect(a, b);
      OverlapSharesGroup(groups, intervals, a, b);
    }
  }

  lemma {:induction false} EnumerationHolds(s: set<Id>, x: Id)
    ensures x in Enumeration(s) <==> x in s
  {
    assert x in Enumeration(s) <==> x in Elements(Enumeration(s));
  }

  lemma {:induction false} KeyBeforeIsStrict(a: OverlapGroup, b: OverlapGroup)
    requires KeyBefore(a, b)
    ensures !KeyBefore(b, a)
  {
    LessIsIrreflexive(a.book);
    if Less(a.book, b.book) { LessIsAsymmetric(a.book, b.book); }
  }

  /** Every group of one sweep is a group of any other sweep of the same intervals. */
  lemma {:induction false} GroupIsForced(g: seq<OverlapGroup>, h: seq<OverlapGroup>, intervals: set<Interval>, n: nat)
    returns (m: nat)
    requires IsSweep(g, intervals) && IsSweep(h, intervals) && n < |g|
    ensures m < |h| && h[m] == g[n]
  {
    assert IsStart(intervals, g[n].book, g[n].ordinal) && HoldsStabbed(g[n], intervals);
    var i :| i in intervals && i.book == g[n].book && i.start == g[n].ordinal;
    assert HasGroup(h, i.book, i.start);
    m :| 0 <= m < |h| && h[m].book == i.book && h[m].ordinal == i.start;
    assert HoldsStabbed(h[m], intervals);
  }

  ghost predicate KeysAscend(g: seq<OverlapGroup>) {
    forall i, j :: 0 <= i < j < |g| ==> KeyBefore(g[i], g[j])
  }

  ghost predicate Listed(x: OverlapGroup, h: seq<OverlapGroup>) {
    exists m :: 0 <= m < |h| && h[m] == x
  }

  ghost predicate AllListed(g: seq<OverlapGroup>, h: seq<OverlapGroup>) {
    forall k {:trigger Listed(g[k], h)} :: 0 <= k < |g| ==> Listed(g[k], h)
  }

  lemma {:induction false} EarlierKeyStandsEarlier(g: seq<OverlapGroup>, l: nat, k: nat)
    requires KeysAscend(g) && l < |g| && k < |g| && KeyBefore(g[l], g[k])
    ensures l < k
  {
    KeyBeforeIsStrict(g[l], g[k]);
  }

  lemma {:induction false} SamePrefix(g: seq<OverlapGroup>, h: seq<OverlapGroup>, n: nat)
    requires KeysAscend(g) && KeysAscend(h) && n <= |g|
    requires AllListed(g, h) && AllListed(h, g)
    ensures n <= |h| && forall k :: 0 <= k < n ==> g[k] == h[k]
  {
    if n > 0 {
      SamePrefix(g, h, n - 1);
      assert Listed(g[n - 1], h);
      var m :| 0 <= m < |h| && h[m] == g[n - 1];
      if m < n - 1 {
        KeyBeforeIsStrict(g[m], g[n - 1]);
      } else if m > n - 1 {
        assert Listed(h[n - 1], g);
        var l :| 0 <= l < |g| && g[l] == h[n - 1];
        EarlierKeyStandsEarlier(g, l, n - 1);
        if l < n - 1 {
          KeyBeforeIsStrict(h[l], h[n - 1]);
        }
      }
    }
  }

  /** The emitted rows depend on the set of intervals alone, not on the order they arrive in. */
  lemma {:induction false} SweepIsDetermined(g: seq<OverlapGroup>, h: seq<OverlapGroup>, intervals: set<Interval>)
    requires IsSweep(g, intervals) && IsSweep(h, intervals)
    ensures g == h
  {
    forall k | 0 <= k < |g| ensures Listed(g[k], h) { var m := GroupIsForced(g, h, intervals, k); }
    forall k | 0 <= k < |h| ensures Listed(h[k], g) { var m := GroupIsForced(h, g, intervals, k); }
    SamePrefix(g, h, |g|);
    SamePrefix(h, g, |h|);
  }
}
