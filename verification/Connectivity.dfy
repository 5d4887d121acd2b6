/** Connectivity of relationships through shared leakage groups: the simple specification that the
    union-find of src/echoes/benchmarks/splits.py must meet. */
module Connectivity {
  import opened Ordering
  import opened BenchmarkRows

  /** Two relationships are linked when one group holds both. */
  ghost predicate Linked(rows: set<GroupRow>, a: Id, b: Id) {
    exists p, q :: p in rows && q in rows && p.groupId == q.groupId && p.relationshipId == a && q.relationshipId == b
  }

  ghost predicate IsChain(rows: set<GroupRow>, path: seq<Id>) {
    path != [] && forall k :: 0 <= k < |path| - 1 ==> Linked(rows, path[k], path[k + 1])
  }

  ghost predicate ChainBetween(rows: set<GroupRow>, path: seq<Id>, a: Id, b: Id) {
    IsChain(rows, path) && path[0] == a && path[|path| - 1] == b
  }

  /** Some chain of shared groups leads from a to b. */
  ghost predicate Connected(rows: set<GroupRow>, a: Id, b: Id) {
    exists path :: ChainBetween(rows, path, a, b)
  }

  lemma {:induction false} ConnectedReflexive(rows: set<GroupRow>, a: Id)
    ensures Connected(rows, a, a)
  {
    assert ChainBetween(rows, [a], a, a);
  }

  lemma {:induction false} LinkedIsConnected(rows: set<GroupRow>, a: Id, b: Id)
    requires Linked(rows, a, b)
    ensures Connected(rows, a, b)
  {
    assert ChainBetween(rows, [a, b], a, b);
  }

  lemma {:induction false} ConnectedTransitive(rows: set<GroupRow>, a: Id, b: Id, c: Id)
    requires Connected(rows, a, b) && Connected(rows, b, c)
    ensures Connected(rows, a, c)
  {
    var p :| ChainBetween(rows, p, a, b);
    var q :| ChainBetween(rows, q, b, c);
    var path := p + q[1..];
    forall k | 0 <= k < |path| - 1 ensures Linked(rows, path[k], path[k + 1]) {
      if k >= |p| - 1 {
        assert path[k] == q[k - |p| + 1] && path[k + 1] == q[k - |p| + 2];
      }
    }
    assert ChainBetween(rows, path, a, c);
  }

  lemma {:induction false} ConnectedSymmetric(rows: set<GroupRow>, a: Id, b: Id)
    requires Connected(rows, a, b)
    ensures Connected(rows, b, a)
  {
    var p :| ChainBetween(rows, p, a, b);
    var path := seq(|p|, k requires 0 <= k < |p| => p[|p| - 1 - k]);
    forall k | 0 <= k < |path| - 1 ensures Linked(rows, path[k], path[k + 1]) {
      assert Linked(rows, p[|p| - 2 - k], p[|p| - 1 - k]);
    }
    assert ChainBetween(rows, path, b, a);
  }

  /** A labelling is constant along chains as soon as it is constant on links. */
  lemma {:induction false} ConstantAlongChain<T>(rows: set<GroupRow>, path: seq<Id>, tag: map<Id, T>)
    requires IsChain(rows, path)
    requires path[0] in tag
    requires forall x, y :: Linked(rows, x, y) ==> x in tag && y in tag && tag[x] == tag[y]
    ensures path[|path| - 1] in tag && tag[path[0]] == tag[path[|path| - 1]]
    decreases |path|
  {
    if |path| > 1 {
      assert Linked(rows, path[0], path[1]);
      var tail := path[1..];
      forall k | 0 <= k < |tail| - 1 ensures Linked(rows, tail[k], tail[k + 1]) {
        assert Linked(rows, path[k + 1], path[k + 2]);
      }
      ConstantAlongChain(rows, tail, tag);
    }
  }
}
