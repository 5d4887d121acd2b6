/** The disjoint-set forest of src/echoes/benchmarks/splits.py: `find` with path compression and a
    union in which the smaller root identifier wins. */
module DisjointSets {
  import opened Ordering

  /** Every parent is a key and never exceeds its child. */
  ghost predicate Forest(parent: map<Id, Id>) {
    forall x :: Climbs(parent, x)
  }

  /** The parent of one key, as a predicate of its own so that a forest is only ever read key by key. */
  ghost predicate Climbs(parent: map<Id, Id>, x: Id) {
    x in parent ==> parent[x] in parent && AtMost(parent[x], x)
  }

  ghost function Below(parent: map<Id, Id>, x: Id): set<Id> {
    set y | y in parent && Less(y, x)
  }

  /** Climbing strictly shrinks the set of smaller keys: why `find` terminates. */
  lemma {:induction false} BelowShrinks(parent: map<Id, Id>, x: Id, y: Id)
    requires y in parent && Less(y, x)
    ensures Below(parent, y) < Below(parent, x)
  {
    LessIsIrreflexive(y);
    forall z | z in Below(parent, y) ensures z in Below(parent, x) {
      LessIsTransitive(z, y, x);
    }
    assert y in Below(parent, x) && y !in Below(parent, y);
  }

  ghost function Root(parent: map<Id, Id>, x: Id): Id
    requires Forest(parent) && x in parent
    decreases Below(parent, x)
  {
    assert Climbs(parent, x);
    var p := parent[x];
    if p == x then x
    else
      BelowShrinks(parent, x, p);
      Root(parent, p)
  }

  /** A root is a key, its own parent, and no larger than the keys below it. */
  lemma {:induction false} RootFacts(parent: map<Id, Id>, x: Id)
    requires Forest(parent) && x in parent
    ensures Root(parent, x) in parent && parent[Root(parent, x)] == Root(parent, x)
    ensures AtMost(Root(parent, x), x)
    decreases Below(parent, x)
  {
    assert Climbs(parent, x);
    var p := parent[x];
    if p != x {
      BelowShrinks(parent, x, p);
      RootFacts(parent, p);
      AtMostIsTransitive(Root(parent, p), p, x);
    }
  }

  /** The abstract value of a forest: each key's root. */
  ghost function Roots(parent: map<Id, Id>): map<Id, Id>
    requires Forest(parent)
  {
    map x | x in parent :: Root(parent, x)
  }

  /** What a union does to the abstract value. */
  ghost function Merged(roots: map<Id, Id>, a: Id, b: Id): map<Id, Id>
    requires a in roots && b in roots
  {
    map x | x in roots ::
      if roots[x] == roots[a] || roots[x] == roots[b] then Smaller(roots[a], roots[b]) else roots[x]
  }

  /** Hanging a key directly under its root changes no root. */
  lemma {:induction false} CompressionIsForest(parent: map<Id, Id>, x: Id)
    requires Forest(parent) && x in parent
    ensures Forest(parent[x := Root(parent, x)])
  {
    RootFacts(parent, x);
    var after := parent[x := Root(parent, x)];
    forall y
      ensures Climbs(after, y)
    {
      assert Climbs(parent, y);
    }
  }

  lemma {:induction false} CompressionKeepsRoot(parent: map<Id, Id>, x: Id, y: Id)
    requires Forest(parent) && x in parent && y in parent && Forest(parent[x := Root(parent, x)])
    ensures Root(parent[x := Root(parent, x)], y) == Root(parent, y)
    decreases Below(parent, y)
  {
    RootFacts(parent, x);
    assert Climbs(parent, y);
    var r := Root(parent, x);
    var after := parent[x := r];
    assert after[r] == r;
    if y != x && parent[y] != y {
      BelowShrinks(parent, y, parent[y]);
      CompressionKeepsRoot(parent, x, parent[y]);
    } else if y == x {
      assert Root(after, r) == r;
    }
  }

  /** Hanging a key directly under its root changes no root. */
  lemma {:induction false} CompressionKeepsRoots(parent: map<Id, Id>, x: Id)
    requires Forest(parent) && x in parent
    ensures Forest(parent[x := Root(parent, x)])
    ensures Roots(parent[x := Root(parent, x)]) == Roots(parent)
  {
    CompressionIsForest(parent, x);
    RootFacts(parent, x);
    var after := parent[x := Root(parent, x)];
    forall y | y in parent
      ensures Roots(after)[y] == Roots(parent)[y]
    {
      CompressionKeepsRoot(parent, x, y);
    }
    assert Roots(after).Keys == Roots(parent).Keys;
  }

  lemma {:induction false} LinkIsForest(parent: map<Id, Id>, small: Id, large: Id)
    requires Forest(parent) && small in parent && large in parent && Less(small, large)
    ensures Forest(parent[large := small])
  {
    var after := parent[large := small];
    forall y
      ensures Climbs(after, y)
    {
      assert Climbs(parent, y);
    }
  }

  /** Hanging one root under a smaller root moves exactly the keys it was the root of. */
  lemma {:induction false} LinkMovesRoot(parent: map<Id, Id>, small: Id, large: Id, y: Id)
    requires Forest(parent) && small in parent && large in parent && y in parent
    requires parent[small] == small && parent[large] == large && Less(small, large)
    requires Forest(parent[large := small])
    ensures Root(parent[large := small], y) == if Root(parent, y) == large then small else Root(parent, y)
    decreases Below(parent, y)
  {
    LessIsIrreflexive(small);
    assert Climbs(parent, y);
    var after := parent[large := small];
    if y == large {
      assert Root(after, small) == small;
    } else if parent[y] != y {
      BelowShrinks(parent, y, parent[y]);
      LinkMovesRoot(parent, small, large, parent[y]);
    }
  }

  /** small and large are the roots of a and b, in order. */
  ghost predicate RootsInOrder(parent: map<Id, Id>, a: Id, b: Id, small: Id, large: Id)
    requires Forest(parent) && a in parent && b in parent
  {
    && small in parent && large in parent && parent[small] == small && parent[large] == large
    && Less(small, large) && Smaller(Root(parent, a), Root(parent, b)) == small
    && {small, large} == {Root(parent, a), Root(parent, b)}
  }

  lemma {:induction false} LinkMerges(parent: map<Id, Id>, a: Id, b: Id, small: Id, large: Id)
    requires Forest(parent) && a in parent && b in parent && RootsInOrder(parent, a, b, small, large)
    ensures Forest(parent[large := small])
    ensures Roots(parent[large := small]) == Merged(Roots(parent), a, b)
  {
    LinkIsForest(parent, small, large);
    var after, merged := Roots(parent[large := small]), Merged(Roots(parent), a, b);
    forall y | y in parent
      ensures after[y] == merged[y]
    {
      LinkMovesRoot(parent, small, large, y);
    }
    assert after.Keys == merged.Keys;
  }

  /** The facts about an abstract value that the split stage uses: each key is labelled by a key that
      labels itself and is no larger. */
  ghost predicate LeastLabels(c: map<Id, Id>) {
    forall x :: LabelsItself(c, x)
  }

  ghost predicate LabelsItself(c: map<Id, Id>, x: Id) {
    x in c ==> c[x] in c && c[c[x]] == c[x] && AtMost(c[x], x)
  }

  lemma {:induction false} RootsAreLeastLabels(parent: map<Id, Id>)
    requires Forest(parent)
    ensures LeastLabels(Roots(parent))
  {
    forall x
      ensures LabelsItself(Roots(parent), x)
    {
      if x in parent { RootFacts(parent, x); }
    }
  }

  class DisjointSet {
    var parent: map<Id, Id>

    /** Every value starts as its own root. */
    constructor (values: seq<Id>)
      ensures Forest(parent)
      ensures Roots(parent) == map x | x in values :: x
    {
      parent := map x | x in values :: x;
      new;
      assert forall x :: Climbs(parent, x);
    }

    method Find(value: Id) returns (root: Id)
      requires Forest(parent) && value in parent
      modifies this
      ensures Forest(parent) && Roots(parent) == old(Roots(parent))
      ensures root == old(Root(parent, value))
      decreases Below(parent, value)
    {
      assert Climbs(parent, value);
      var above := parent[value];
      if above != value {
        BelowShrinks(parent, value, above);
        ghost var before := Roots(parent);
        var top := Find(above);
        assert top == before[above] == before[value] == Roots(parent)[value];
        CompressionKeepsRoots(parent, value);
        parent := parent[value := top];
        assert Roots(parent) == before;
      }
      root := parent[value];
    }

    method Union(first: Id, second: Id)
      requires Forest(parent) && first in parent && second in parent
      modifies this
      ensures Forest(parent)
      ensures Roots(parent) == Merged(old(Roots(parent)), first, second)
    {
      ghost var before := Roots(parent);
      assert first in before && second in before;
      var firstRoot := Find(first);
      assert second in Roots(parent);
      var secondRoot := Find(second);
      assert first in Roots(parent) && second in Roots(parent);
      assert firstRoot == Root(parent, first) && secondRoot == Root(parent, second);
      if firstRoot == secondRoot {
        assert Merged(before, first, second) == before;
        return;
      }
      var smaller := Smaller(firstRoot, secondRoot);
      var larger := if smaller == firstRoot then secondRoot else firstRoot;
      RootFacts(parent, first);
      RootFacts(parent, second);
      LinkMerges(parent, first, second, smaller, larger);
      parent := parent[larger := smaller];
    }
  }
}
