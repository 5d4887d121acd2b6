/** Presumed-negative generation of src/echoes/benchmarks/negatives.py. */
module Negatives {
  import opened Wrappers
  import opened Ordering
  import opened BenchmarkRows
  import opened Dictionaries
  import opened Probe

  datatype NegativeStrategy =
    | LengthMatchedRandom
    | SameBook
    | SameBookPair
    | SameBroadGenre
    | NearbyContext

  datatype NegativePassage = NegativePassage(
    passageId: Id,
    corpus: string,
    book: string,
    broadGenre: string,
    tokenCount: int,
    ordinalInBook: int,
    partition: Partition,
    overlappingIds: set<Id>)

  datatype KnownPositive = KnownPositive(relationshipId: Id, passageA: Id, passageB: Id)

  datatype Definition = Definition(
    strategy: NegativeStrategy,
    seed: nat,
    ratio: real,
    lengthTolerance: nat,
    nearbyDistance: nat,
    maxCandidateAttempts: nat)

  /** The generated columns that depend on the pair; the constant flags and copied fields are not carried. */
  datatype NegativeRow = NegativeRow(
    contrastiveId: Id,
    passageA: Id,
    passageB: Id,
    corpusPair: string,
    bookPair: string,
    genrePair: string,
    lengthDifference: nat,
    partition: Partition)

  datatype GenerationError =
    | DuplicatePassageIds
    | GraphMissesTemplate
    | UnknownPassage(relationshipId: Id)
    | CrossesPartitions(relationshipId: Id)
    | Shortfall(requested: nat, produced: nat)

  type Pair = (Id, Id)

  /** The two digests of the generator, as functions of exactly what they digest. */
  datatype Digests = Digests(
    probeWords: (nat, NegativeStrategy, Id, nat) -> (nat, nat),
    contrastiveId: (Id, Id) -> Id)

  function CanonicalPair(first: Id, second: Id): Pair {
    if Less(second, first) then (second, first) else (first, second)
  }

  lemma {:induction false} CanonicalPairFacts(x: Id, y: Id)
    ensures CanonicalPair(x, y) == CanonicalPair(y, x)
    ensures CanonicalPair(x, y) == (x, y) || CanonicalPair(x, y) == (y, x)
    ensures x != y ==> Less(CanonicalPair(x, y).0, CanonicalPair(x, y).1)
  {
    LessIsTotal(x, y);
    if Less(x, y) { LessIsAsymmetric(x, y); }
    if Less(y, x) { LessIsAsymmetric(y, x); }
  }

  /** `"|".join(sorted((first, second)))`. */
  function PairLabel(first: string, second: string): string {
    var (a, b) := CanonicalPair(first, second); a + "|" + b
  }

  function AbsDiff(a: int, b: int): nat {
    if a < b then b - a else a - b
  }

  function Ceil(x: real): int {
    -((-x).Floor)
  }

  /** `range(lo, hi)` ascending, for the length-matched pool. */
  function LengthPool(byLength: map<(Partition, int), seq<Id>>, partition: Partition, lo: int, hi: int): seq<Id>
    decreases hi - lo
  {
    if lo >= hi then []
    else Get(byLength, (partition, lo)) + LengthPool(byLength, partition, lo + 1, hi)
  }

  lemma {:induction false} LengthPoolContents(byLength: map<(Partition, int), seq<Id>>, partition: Partition, lo: int,
                                              hi: int, id: Id)
    ensures id in LengthPool(byLength, partition, lo, hi) <==>
              exists length :: lo <= length < hi && Holds(byLength, (partition, length), id)
    decreases hi - lo
  {
    if lo < hi {
      LengthPoolContents(byLength, partition, lo + 1, hi, id);
      assert id in Get(byLength, (partition, lo)) <==> Holds(byLength, (partition, lo), id);
    }
  }

  // ----- Indexes -----

  function PassageKey(): NegativePassage -> Id {
    (p: NegativePassage) => p.passageId
  }

  ghost predicate UniquePassages(passages: seq<NegativePassage>) {
    UniqueOn(passages, PassageKey())
  }

  /** What the strategy asks of a pool member, given the anchor and the template's other passage. */
  predicate PoolAdmits(definition: Definition, anchor: NegativePassage, other: NegativePassage,
                       candidate: NegativePassage) {
    && candidate.partition == anchor.partition
    && match definition.strategy
       case LengthMatchedRandom => AbsDiff(candidate.tokenCount, anchor.tokenCount) <= definition.lengthTolerance
       case SameBook => candidate.book == anchor.book
       case SameBookPair => candidate.book == other.book
       case SameBroadGenre => candidate.broadGenre == anchor.broadGenre
       case NearbyContext =>
         candidate.book == anchor.book
         && AbsDiff(candidate.ordinalInBook, anchor.ordinalInBook) <= definition.nearbyDistance
  }

  ghost predicate Listed<K>(passages: seq<NegativePassage>, keyOf: NegativePassage -> K, key: K, id: Id) {
    exists k :: 0 <= k < |passages| && passages[k].passageId == id && keyOf(passages[k]) == key
  }

  /** The lists hold exactly the identifiers of the passages with each key, without repeats. */
  ghost predicate ListsBy<K(!new)>(lists: map<K, seq<Id>>, passages: seq<NegativePassage>,
                            keyOf: NegativePassage -> K) {
    && (forall key, id :: Holds(lists, key, id) <==> Listed(passages, keyOf, key, id))
    && (forall key :: key in lists ==> Distinct(lists[key]))
  }

  lemma {:induction false} ListedSnoc<K>(front: seq<NegativePassage>, p: NegativePassage, keyOf: NegativePassage -> K,
                                         key: K, id: Id)
    ensures Listed(front + [p], keyOf, key, id) <==>
              Listed(front, keyOf, key, id) || (p.passageId == id && keyOf(p) == key)
  {
    var s := front + [p];
    assert s[|front|] == p;
    if Listed(front, keyOf, key, id) {
      var k :| 0 <= k < |front| && front[k].passageId == id && keyOf(front[k]) == key;
      assert s[k] == front[k];
    }
  }

  lemma {:induction false} LastIsFresh(front: seq<NegativePassage>, p: NegativePassage)
    requires UniquePassages(front + [p])
    ensures forall k :: 0 <= k < |front| ==> front[k].passageId != p.passageId
  {
    var s := front + [p];
    forall k | 0 <= k < |front| ensures front[k].passageId != p.passageId {
      assert s[k] == front[k] && s[|front|] == p;
      assert PassageKey()(s[k]) != PassageKey()(s[|front|]);
    }
  }

  lemma {:induction false} AppendLists<K(!new)>(lists: map<K, seq<Id>>, front: seq<NegativePassage>, p: NegativePassage,
                             keyOf: NegativePassage -> K)
    requires ListsBy(lists, front, keyOf) && UniquePassages(front + [p])
    ensures ListsBy(Append(lists, keyOf(p), p.passageId), front + [p], keyOf)
  {
    var after := Append(lists, keyOf(p), p.passageId);
    forall key, id ensures Holds(after, key, id) <==> Listed(front + [p], keyOf, key, id) {
      ListedSnoc(front, p, keyOf, key, id);
    }
    LastIsFresh(front, p);
    assert !Listed(front, keyOf, keyOf(p), p.passageId);
    assert !Holds(lists, keyOf(p), p.passageId);
  }

  lemma {:induction false} SortKeepsLists<K(!new)>(lists: map<K, seq<Id>>, passages: seq<NegativePassage>,
                                            keyOf: NegativePassage -> K,
                                atMost: (Id, Id) -> bool)
    requires ListsBy(lists, passages, keyOf)
    ensures ListsBy(SortLists(lists, atMost), passages, keyOf)
  {
    forall key, id ensures Holds(SortLists(lists, atMost), key, id) <==> Listed(passages, keyOf, key, id) {
      SortListsHold(lists, atMost, key, id);
    }
    forall key | key in lists ensures Distinct(SortLists(lists, atMost)[key]) {
      DistinctPermutation(lists[key], SortLists(lists, atMost)[key]);
    }
  }

  function BookKey(): NegativePassage -> (Partition, string) {
    (p: NegativePassage) => (p.partition, p.book)
  }

  function GenreKey(): NegativePassage -> (Partition, string) {
    (p: NegativePassage) => (p.partition, p.broadGenre)
  }

  function LengthKey(): NegativePassage -> (Partition, int) {
    (p: NegativePassage) => (p.partition, p.tokenCount)
  }

  function ContextAtMost(byId: map<Id, NegativePassage>): (Id, Id) -> bool {
    (a: Id, b: Id) =>
      if a in byId && b in byId && byId[a].ordinalInBook != byId[b].ordinalInBook then
        byId[a].ordinalInBook < byId[b].ordinalInBook
      else AtMost(a, b)
  }

  type ByText = map<(Partition, string), seq<Id>>
  type ByCount = map<(Partition, int), seq<Id>>

  ghost predicate AllListed(passages: seq<NegativePassage>, books: ByText, genres: ByText, lengths: ByCount,
                            contexts: ByText) {
    && ListsBy(books, passages, BookKey()) && ListsBy(genres, passages, GenreKey())
    && ListsBy(lengths, passages, LengthKey()) && ListsBy(contexts, passages, BookKey())
  }

  lemma {:induction false} NextPassageListed(passages: seq<NegativePassage>, i: nat, books: ByText, genres: ByText,
                                             lengths: ByCount, contexts: ByText)
    requires i < |passages| && UniquePassages(passages) && AllListed(passages[..i], books, genres, lengths, contexts)
    ensures var p := passages[i];
            AllListed(passages[..i + 1], Append(books, (p.partition, p.book), p.passageId),
                      Append(genres, (p.partition, p.broadGenre), p.passageId),
                      Append(lengths, (p.partition, p.tokenCount), p.passageId),
                      Append(contexts, (p.partition, p.book), p.passageId))
  {
    var p := passages[i];
    assert passages[..i + 1] == passages[..i] + [p];
    PrefixIsUnique(passages, i + 1);
    AppendLists(books, passages[..i], p, BookKey());
    AppendLists(genres, passages[..i], p, GenreKey());
    AppendLists(lengths, passages[..i], p, LengthKey());
    AppendLists(contexts, passages[..i], p, BookKey());
  }

  lemma {:induction false} PrefixIsUnique(passages: seq<NegativePassage>, n: nat)
    requires n <= |passages| && UniquePassages(passages)
    ensures UniquePassages(passages[..n])
  {
  }

  lemma {:induction false} SortKeepsAll(passages: seq<NegativePassage>, books: ByText, genres: ByText, lengths: ByCount,
                                        contexts: ByText, contextAtMost: (Id, Id) -> bool)
    requires AllListed(passages, books, genres, lengths, contexts)
    ensures AllListed(passages, SortLists(books, AtMost), SortLists(genres, AtMost), SortLists(lengths, AtMost),
                      SortLists(contexts, contextAtMost))
  {
    SortKeepsLists(books, passages, BookKey(), AtMost);
    SortKeepsLists(genres, passages, GenreKey(), AtMost);
    SortKeepsLists(lengths, passages, LengthKey(), AtMost);
    SortKeepsLists(contexts, passages, BookKey(), contextAtMost);
  }

  /** Every list is sorted by the comparison. */
  ghost predicate AllSorted<K(!new)>(lists: map<K, seq<Id>>, atMost: (Id, Id) -> bool) {
    forall key :: key in lists ==> SortedBy(lists[key], atMost)
  }

  lemma {:induction false} PlaceOrders(byId: map<Id, NegativePassage>, ids: set<Id>)
    requires ids <= byId.Keys
    ensures Orders(ContextAtMost(byId), ids)
  {
    TextOrders(ids);
  }

  lemma {:induction false} SortListsSorts<K(!new)>(lists: map<K, seq<Id>>, atMost: (Id, Id) -> bool, ids: set<Id>)
    requires Orders(atMost, ids) && forall key, id :: Holds(lists, key, id) ==> id in ids
    ensures AllSorted(SortLists(lists, atMost), atMost)
  {
    forall key | key in lists ensures SortedBy(SortLists(lists, atMost)[key], atMost) {
      forall id | id in lists[key] ensures id in ids {
        assert Holds(lists, key, id);
      }
      SortWithSorts(lists[key], atMost, ids);
    }
  }

  lemma {:induction false} ListedIsKnown<K(!new)>(lists: map<K, seq<Id>>, passages: seq<NegativePassage>,
                                                  keyOf: NegativePassage -> K)
    requires UniquePassages(passages) && ListsBy(lists, passages, keyOf)
    ensures forall key, id :: Holds(lists, key, id) ==> id in IndexOn(passages, PassageKey())
  {
    forall key, id | Holds(lists, key, id) ensures id in IndexOn(passages, PassageKey()) {
      ListedIsIndexed(passages, keyOf, key, id);
    }
  }

  lemma {:induction false} AllAreSorted(passages: seq<NegativePassage>, books: ByText, genres: ByText, lengths: ByCount,
                                        contexts: ByText)
    requires UniquePassages(passages) && AllListed(passages, books, genres, lengths, contexts)
    ensures AllSorted(SortLists(books, AtMost), AtMost) && AllSorted(SortLists(genres, AtMost), AtMost)
    ensures AllSorted(SortLists(lengths, AtMost), AtMost)
    ensures var byPlace := ContextAtMost(IndexOn(passages, PassageKey()));
            AllSorted(SortLists(contexts, byPlace), byPlace)
  {
    var byId := IndexOn(passages, PassageKey());
    ListedIsKnown(books, passages, BookKey());
    ListedIsKnown(genres, passages, GenreKey());
    ListedIsKnown(lengths, passages, LengthKey());
    ListedIsKnown(contexts, passages, BookKey());
    TextOrders(byId.Keys);
    PlaceOrders(byId, byId.Keys);
    SortListsSorts(books, AtMost, byId.Keys);
    SortListsSorts(genres, AtMost, byId.Keys);
    SortListsSorts(lengths, AtMost, byId.Keys);
    SortListsSorts(contexts, ContextAtMost(byId), byId.Keys);
  }

  /** `max(1, anchor.token_count - definition.length_tolerance)` */
  function Shortest(anchor: NegativePassage, definition: Definition): int {
    var lo := anchor.tokenCount - definition.lengthTolerance;
    if lo < 1 then 1 else lo
  }

  class PassageIndexes {
    var byId: map<Id, NegativePassage>
    var byBook: map<(Partition, string), seq<Id>>
    var byGenre: map<(Partition, string), seq<Id>>
    var byLength: map<(Partition, int), seq<Id>>
    var byContext: map<(Partition, string), seq<Id>>

    /** The indexes describe exactly these passages. */
    ghost predicate Describes(passages: seq<NegativePassage>)
      reads this
    {
      && UniquePassages(passages)
      && byId == IndexOn(passages, PassageKey())
      && ListsBy(byBook, passages, BookKey())
      && ListsBy(byGenre, passages, GenreKey())
      && ListsBy(byLength, passages, LengthKey())
      && ListsBy(byContext, passages, BookKey())
      && AllSorted(byBook, AtMost) && AllSorted(byGenre, AtMost) && AllSorted(byLength, AtMost)
      && AllSorted(byContext, ContextAtMost(byId))
    }

    constructor (passages: seq<NegativePassage>)
      ensures byId == IndexOn(passages, PassageKey())
      ensures UniquePassages(passages) ==> Describes(passages)
    {
      byId, byBook, byGenre, byLength, byContext := map[], map[], map[], map[], map[];
      new;
      for i := 0 to |passages|
        invariant byId == IndexOn(passages[..i], PassageKey())
        invariant UniquePassages(passages) ==> AllListed(passages[..i], byBook, byGenre, byLength, byContext)
      {
        var p := passages[i];
        assert passages[..i + 1][..i] == passages[..i];
        if UniquePassages(passages) {
          NextPassageListed(passages, i, byBook, byGenre, byLength, byContext);
        }
        byId := byId[p.passageId := p];
        byBook := Append(byBook, (p.partition, p.book), p.passageId);
        byGenre := Append(byGenre, (p.partition, p.broadGenre), p.passageId);
        byLength := Append(byLength, (p.partition, p.tokenCount), p.passageId);
        byContext := Append(byContext, (p.partition, p.book), p.passageId);
      }
      assert passages[..|passages|] == passages;
      if UniquePassages(passages) {
        SortKeepsAll(passages, byBook, byGenre, byLength, byContext, ContextAtMost(byId));
        AllAreSorted(passages, byBook, byGenre, byLength, byContext);
      }
      byBook := SortLists(byBook, AtMost);
      byGenre := SortLists(byGenre, AtMost);
      byLength := SortLists(byLength, AtMost);
      byContext := SortLists(byContext, ContextAtMost(byId));
    }

    /** The candidate pool of one anchor, in the order the probe strides over. */
    function Pool(anchor: NegativePassage, other: NegativePassage, definition: Definition): seq<Id>
      reads this
    {
      match definition.strategy
      case LengthMatchedRandom =>
        SortedDistinct(LengthPool(byLength, anchor.partition, Shortest(anchor, definition),
                                  anchor.tokenCount + definition.lengthTolerance + 1))
      case SameBook => Get(byBook, (anchor.partition, anchor.book))
      case SameBookPair => Get(byBook, (anchor.partition, other.book))
      case SameBroadGenre => Get(byGenre, (anchor.partition, anchor.broadGenre))
      case NearbyContext =>
        NearbyOnly(Get(byContext, (anchor.partition, anchor.book)), byId, anchor, definition.nearbyDistance)
    }
  }

  function NearbyOnly(ids: seq<Id>, byId: map<Id, NegativePassage>, anchor: NegativePassage, distance: nat): seq<Id> {
    if ids == [] then []
    else
      (if ids[0] in byId && AbsDiff(byId[ids[0]].ordinalInBook, anchor.ordinalInBook) <= distance then [ids[0]] else [])
      + NearbyOnly(ids[1..], byId, anchor, distance)
  }

  lemma {:induction false} NearbyOnlyContents(ids: seq<Id>, byId: map<Id, NegativePassage>, anchor: NegativePassage,
                                              distance: nat, id: Id)
    ensures id in NearbyOnly(ids, byId, anchor, distance) <==>
              id in ids && id in byId && AbsDiff(byId[id].ordinalInBook, anchor.ordinalInBook) <= distance
  {
    if ids != [] {
      NearbyOnlyContents(ids[1..], byId, anchor, distance, id);
      assert ids == [ids[0]] + ids[1..];
    }
  }

  lemma {:induction false} NearbyOnlyDistinct(ids: seq<Id>, byId: map<Id, NegativePassage>, anchor: NegativePassage,
                                              distance: nat)
    requires Distinct(ids)
    ensures Distinct(NearbyOnly(ids, byId, anchor, distance))
  {
    if ids != [] {
      NearbyOnlyDistinct(ids[1..], byId, anchor, distance);
      NearbyOnlyContents(ids[1..], byId, anchor, distance, ids[0]);
      assert ids[0] !in ids[1..];
    }
  }

  lemma {:induction false} ListedIsIndexed<K>(passages: seq<NegativePassage>, keyOf: NegativePassage -> K, key: K,
                                              id: Id)
    requires UniquePassages(passages)
    ensures var byId := IndexOn(passages, PassageKey());
            Listed(passages, keyOf, key, id) <==> id in byId && keyOf(byId[id]) == key
  {
    var byId := IndexOn(passages, PassageKey());
    if Listed(passages, keyOf, key, id) {
      var k :| 0 <= k < |passages| && passages[k].passageId == id && keyOf(passages[k]) == key;
      IndexHoldsEntry(passages, PassageKey(), k);
    }
    if id in byId {
      IndexEntryListed(passages, PassageKey(), id);
      var k :| 0 <= k < |passages| && passages[k] == byId[id];
    }
  }

  lemma {:induction false} SortedPoolContents(byLength: ByCount, partition: Partition, lo: int, hi: int, id: Id)
    ensures var pool := SortedDistinct(LengthPool(byLength, partition, lo, hi));
            Distinct(pool)
            && (id in pool <==> exists length :: lo <= length < hi && Holds(byLength, (partition, length), id))
  {
    var candidates := LengthPool(byLength, partition, lo, hi);
    AscendingIsDistinct(SortedDistinct(candidates));
    LengthPoolContents(byLength, partition, lo, hi, id);
    assert id in SortedDistinct(candidates) <==> id in Elements(SortedDistinct(candidates));
    assert id in candidates <==> id in Elements(candidates);
  }

  lemma {:induction false} LengthMembers(passages: seq<NegativePassage>, lengths: ByCount, partition: Partition,
                                         lo: int, hi: int, id: Id)
    requires UniquePassages(passages) && ListsBy(lengths, passages, LengthKey())
    ensures var byId := IndexOn(passages, PassageKey());
            (exists length :: lo <= length < hi && Holds(lengths, (partition, length), id)) <==>
              id in byId && byId[id].partition == partition && lo <= byId[id].tokenCount < hi
  {
    var byId := IndexOn(passages, PassageKey());
    if length :| lo <= length < hi && Holds(lengths, (partition, length), id) {
      ListedIsIndexed(passages, LengthKey(), (partition, length), id);
    }
    if id in byId && byId[id].partition == partition {
      ListedIsIndexed(passages, LengthKey(), (partition, byId[id].tokenCount), id);
      assert Holds(lengths, (partition, byId[id].tokenCount), id);
    }
  }

  lemma {:induction false} LengthPoolIsExact(indexes: PassageIndexes, passages: seq<NegativePassage>,
                                             anchor: NegativePassage, other: NegativePassage, definition: Definition,
                                             id: Id)
    requires indexes.Describes(passages) && definition.strategy == LengthMatchedRandom
    requires forall k :: 0 <= k < |passages| ==> passages[k].tokenCount >= 1
    ensures Distinct(indexes.Pool(anchor, other, definition))
    ensures id in indexes.Pool(anchor, other, definition) <==>
              id in indexes.byId && PoolAdmits(definition, anchor, other, indexes.byId[id])
  {
    LengthsAreExact(passages, indexes.byLength, anchor, other, definition, id);
  }

  lemma {:induction false} LengthsAreExact(passages: seq<NegativePassage>, lengths: ByCount, anchor: NegativePassage,
                                           other: NegativePassage, definition: Definition, id: Id)
    requires UniquePassages(passages) && ListsBy(lengths, passages, LengthKey())
    requires definition.strategy == LengthMatchedRandom
    requires forall k :: 0 <= k < |passages| ==> passages[k].tokenCount >= 1
    ensures var byId := IndexOn(passages, PassageKey());
            var pool := SortedDistinct(LengthPool(lengths, anchor.partition, Shortest(anchor, definition),
                                                  anchor.tokenCount + definition.lengthTolerance + 1));
            Distinct(pool) && (id in pool <==> id in byId && PoolAdmits(definition, anchor, other, byId[id]))
  {
    SortedPoolIsExact(passages, lengths, anchor.partition, Shortest(anchor, definition),
      anchor.tokenCount + definition.lengthTolerance + 1, id);
    if id in IndexOn(passages, PassageKey()) {
      IndexedHasTokens(passages, id);
      LengthsAgree(definition, anchor, other, IndexOn(passages, PassageKey())[id]);
    }
  }

  lemma {:induction false} IndexedHasTokens(passages: seq<NegativePassage>, id: Id)
    requires id in IndexOn(passages, PassageKey()) && forall k :: 0 <= k < |passages| ==> passages[k].tokenCount >= 1
    ensures IndexOn(passages, PassageKey())[id].tokenCount >= 1
  {
    IndexEntryListed(passages, PassageKey(), id);
  }

  lemma {:induction false} LengthsAgree(definition: Definition, anchor: NegativePassage, other: NegativePassage,
                                        p: NegativePassage)
    requires definition.strategy == LengthMatchedRandom && p.tokenCount >= 1
    ensures PoolAdmits(definition, anchor, other, p) <==>
              p.partition == anchor.partition
              && Shortest(anchor, definition) <= p.tokenCount < anchor.tokenCount + definition.lengthTolerance + 1
  {
  }

  lemma {:induction false} SortedPoolIsExact(passages: seq<NegativePassage>, lengths: ByCount, partition: Partition,
                                             lo: int, hi: int, id: Id)
    requires UniquePassages(passages) && ListsBy(lengths, passages, LengthKey())
    ensures var byId := IndexOn(passages, PassageKey()); var pool :=
            SortedDistinct(LengthPool(lengths, partition, lo, hi));
            && Distinct(pool)
            && (id in pool <==>
                  id in byId && byId[id].partition == partition && lo <= byId[id].tokenCount < hi)
  {
    SortedPoolContents(lengths, partition, lo, hi, id);
    LengthMembers(passages, lengths, partition, lo, hi, id);
  }

  /** Every pool is duplicate-free and holds exactly the passages the strategy admits. */
  lemma {:induction false} PoolIsExact(indexes: PassageIndexes, passages: seq<NegativePassage>, anchor: NegativePassage,
                                       other: NegativePassage, definition: Definition, id: Id)
    requires indexes.Describes(passages)
    requires forall k :: 0 <= k < |passages| ==> passages[k].tokenCount >= 1
    ensures Distinct(indexes.Pool(anchor, other, definition))
    ensures id in indexes.Pool(anchor, other, definition) <==>
              id in indexes.byId && PoolAdmits(definition, anchor, other, indexes.byId[id])
  {
    var byId := indexes.byId;
    match definition.strategy
    case LengthMatchedRandom =>
      LengthPoolIsExact(indexes, passages, anchor, other, definition, id);
    case SameBook =>
      ListedIsIndexed(passages, BookKey(), (anchor.partition, anchor.book), id);
      assert id in Get(indexes.byBook, (anchor.partition, anchor.book)) <==>
               Holds(indexes.byBook, (anchor.partition, anchor.book), id);
    case SameBookPair =>
      ListedIsIndexed(passages, BookKey(), (anchor.partition, other.book), id);
      assert id in Get(indexes.byBook, (anchor.partition, other.book)) <==>
               Holds(indexes.byBook, (anchor.partition, other.book), id);
    case SameBroadGenre =>
      ListedIsIndexed(passages, GenreKey(), (anchor.partition, anchor.broadGenre), id);
      assert id in Get(indexes.byGenre, (anchor.partition, anchor.broadGenre)) <==>
               Holds(indexes.byGenre, (anchor.partition, anchor.broadGenre), id);
    case NearbyContext =>
      var near := Get(indexes.byContext, (anchor.partition, anchor.book));
      ListedIsIndexed(passages, BookKey(), (anchor.partition, anchor.book), id);
      assert id in near <==> Holds(indexes.byContext, (anchor.partition, anchor.book), id);
      NearbyOnlyContents(near, byId, anchor, definition.nearbyDistance, id);
      NearbyOnlyDistinct(near, byId, anchor, definition.nearbyDistance);
  }

  // ----- The pool in order -----

  /** The passages the strategy admits for the anchor. */
  function Admitted(byId: map<Id, NegativePassage>, anchor: NegativePassage, other: NegativePassage,
                    definition: Definition): set<Id>
  {
    set id | id in byId && PoolAdmits(definition, anchor, other, byId[id])
  }

  /** How the pool is ordered: by identifier, or for the nearby strategy by place in the book and then identifier. */
  function PoolOrder(byId: map<Id, NegativePassage>, definition: Definition): (Id, Id) -> bool {
    if definition.strategy == NearbyContext then ContextAtMost(byId) else AtMost
  }

  /** The admitted passages in that order. */
  function OrderedPool(byId: map<Id, NegativePassage>, anchor: NegativePassage, other: NegativePassage,
                       definition: Definition): seq<Id>
  {
    SortWith(Enumeration(Admitted(byId, anchor, other, definition)), PoolOrder(byId, definition))
  }

  lemma {:induction false} PoolOrderOrders(byId: map<Id, NegativePassage>, definition: Definition, ids: set<Id>)
    requires ids <= byId.Keys
    ensures Orders(PoolOrder(byId, definition), ids)
  {
    TextOrders(ids);
    PlaceOrders(byId, ids);
  }

  lemma {:induction false} OrderedPoolLists(byId: map<Id, NegativePassage>, anchor: NegativePassage,
                                            other: NegativePassage, definition: Definition)
    ensures var pool := OrderedPool(byId, anchor, other, definition);
            && Distinct(pool) && SortedBy(pool, PoolOrder(byId, definition))
            && forall id :: id in pool <==> id in Admitted(byId, anchor, other, definition)
  {
    var ids := Admitted(byId, anchor, other, definition);
    var pool := OrderedPool(byId, anchor, other, definition);
    PoolOrderOrders(byId, definition, ids);
    assert forall id :: id in Enumeration(ids) <==> id in Elements(Enumeration(ids));
    SortWithSorts(Enumeration(ids), PoolOrder(byId, definition), ids);
    AscendingIsDistinct(Enumeration(ids));
    DistinctPermutation(Enumeration(ids), pool);
    assert forall id :: id in pool <==> id in multiset(pool);
    assert forall id :: id in Enumeration(ids) <==> id in multiset(Enumeration(ids));
  }

  lemma {:induction false} NearbyOnlySorted(ids: seq<Id>, byId: map<Id, NegativePassage>, anchor: NegativePassage,
                                            distance: nat, atMost: (Id, Id) -> bool)
    requires SortedBy(ids, atMost)
    ensures SortedBy(NearbyOnly(ids, byId, anchor, distance), atMost)
  {
    if ids != [] {
      NearbyOnlySorted(ids[1..], byId, anchor, distance, atMost);
      var rest := NearbyOnly(ids[1..], byId, anchor, distance);
      forall j | 0 <= j < |rest| ensures atMost(ids[0], rest[j]) {
        assert rest[j] in rest;
        NearbyOnlyContents(ids[1..], byId, anchor, distance, rest[j]);
        var k :| 0 <= k < |ids[1..]| && ids[1..][k] == rest[j];
        assert atMost(ids[0], ids[k + 1]);
      }
    }
  }

  lemma {:induction false} PoolIsSorted(indexes: PassageIndexes, passages: seq<NegativePassage>,
                                        anchor: NegativePassage, other: NegativePassage, definition: Definition)
    requires indexes.Describes(passages)
    ensures SortedBy(indexes.Pool(anchor, other, definition), PoolOrder(indexes.byId, definition))
  {
    if definition.strategy == NearbyContext {
      NearbyOnlySorted(Get(indexes.byContext, (anchor.partition, anchor.book)), indexes.byId, anchor,
        definition.nearbyDistance, ContextAtMost(indexes.byId));
    }
  }

  /** The pool of an anchor is exactly the ordered list of what the strategy admits. */
  lemma {:induction false} PoolIsOrdered(indexes: PassageIndexes, passages: seq<NegativePassage>,
                                         anchor: NegativePassage, other: NegativePassage, definition: Definition)
    requires indexes.Describes(passages) && forall k :: 0 <= k < |passages| ==> passages[k].tokenCount >= 1
    ensures indexes.Pool(anchor, other, definition) == OrderedPool(indexes.byId, anchor, other, definition)
  {
    var ids := Admitted(indexes.byId, anchor, other, definition);
    PoolIsListed(indexes, passages, anchor, other, definition);
    PoolIsSorted(indexes, passages, anchor, other, definition);
    OrderedPoolLists(indexes.byId, anchor, other, definition);
    PoolOrderOrders(indexes.byId, definition, ids);
    SortedIsUnique(indexes.Pool(anchor, other, definition), OrderedPool(indexes.byId, anchor, other, definition),
      PoolOrder(indexes.byId, definition), ids);
  }

  /** Pools run by identifier, and nearby pools by place in the book and then by identifier, nothing twice. */
  lemma {:induction false} PoolComesInOrder(indexes: PassageIndexes, passages: seq<NegativePassage>,
                                            anchor: NegativePassage, other: NegativePassage, definition: Definition,
                                            i: nat, j: nat)
    requires indexes.Describes(passages) && forall k :: 0 <= k < |passages| ==> passages[k].tokenCount >= 1
    requires i < j < |indexes.Pool(anchor, other, definition)|
    ensures var pool := indexes.Pool(anchor, other, definition);
            && pool[i] in indexes.byId && pool[j] in indexes.byId
            && var p, q := indexes.byId[pool[i]].ordinalInBook, indexes.byId[pool[j]].ordinalInBook;
               if definition.strategy == NearbyContext then p < q || (p == q && Less(pool[i], pool[j]))
               else Less(pool[i], pool[j])
  {
    PoolIsListed(indexes, passages, anchor, other, definition);
    PoolIsSorted(indexes, passages, anchor, other, definition);
    var pool := indexes.Pool(anchor, other, definition);
    assert pool[i] in pool && pool[j] in pool;
    assert PoolOrder(indexes.byId, definition)(pool[i], pool[j]) && pool[i] != pool[j];
  }

  // ----- Validity of one candidate -----

  predicate Overlapping(a: NegativePassage, b: NegativePassage) {
    b.passageId in a.overlappingIds || a.passageId in b.overlappingIds
  }

  /** `_candidate_is_valid`: note that it does not check the same-book-pair constraint. */
  predicate CandidateIsValid(anchor: NegativePassage, candidate: NegativePassage, definition: Definition,
                             graph: set<Pair>, generated: set<Pair>) {
    var pair := CanonicalPair(anchor.passageId, candidate.passageId);
    && anchor.passageId != candidate.passageId
    && pair !in graph && pair !in generated
    && candidate.partition == anchor.partition
    && !Overlapping(anchor, candidate)
    && match definition.strategy
       case LengthMatchedRandom => AbsDiff(anchor.tokenCount, candidate.tokenCount) <= definition.lengthTolerance
       case SameBook => candidate.book == anchor.book
       case SameBookPair => true
       case SameBroadGenre => candidate.broadGenre == anchor.broadGenre
       case NearbyContext =>
         candidate.book == anchor.book
         && AbsDiff(candidate.ordinalInBook, anchor.ordinalInBook) <= definition.nearbyDistance
  }

  /** A passage of the pool is valid exactly when it is not the anchor, does not overlap it, and pairs with it neither
      in the graph nor among the generated pairs, whichever comes first: beyond the pool the strategy asks nothing. */
  lemma {:induction false} PooledIsValidExactlyWhen(anchor: NegativePassage, other: NegativePassage,
                                                    candidate: NegativePassage, definition: Definition,
                                                    graph: set<Pair>, generated: set<Pair>)
    requires PoolAdmits(definition, anchor, other, candidate)
    requires forall pair :: pair in graph + generated ==> Less(pair.0, pair.1)
    ensures var a, b := anchor.passageId, candidate.passageId;
            CandidateIsValid(anchor, candidate, definition, graph, generated) <==>
              && a != b && (a, b) !in graph + generated && (b, a) !in graph + generated
              && b !in anchor.overlappingIds && a !in candidate.overlappingIds
  {
    var a, b := anchor.passageId, candidate.passageId;
    CanonicalPairFacts(a, b);
    LessIsTotal(a, b);
    if Less(a, b) { LessIsAsymmetric(a, b); }
    if Less(b, a) { LessIsAsymmetric(b, a); }
  }

  /** A valid candidate is one the pool would admit, except that validity does not ask for the other book of a pair. */
  lemma {:induction false} ValidIsAdmitted(anchor: NegativePassage, other: NegativePassage, candidate: NegativePassage,
                                           definition: Definition, graph: set<Pair>, generated: set<Pair>)
    requires CandidateIsValid(anchor, candidate, definition, graph, generated)
    ensures PoolAdmits(definition, anchor, other, candidate)
            || (definition.strategy == SameBookPair && candidate.partition == anchor.partition)
  {
  }

  /** Growing the generated set never makes a refused candidate valid. */
  lemma {:induction false} RefusalPersists(anchor: NegativePassage, candidate: NegativePassage, definition: Definition,
                                           graph: set<Pair>, generated: set<Pair>, more: set<Pair>)
    requires generated <= more && !CandidateIsValid(anchor, candidate, definition, graph, generated)
    ensures !CandidateIsValid(anchor, candidate, definition, graph, more)
  {
  }

  // ----- One slot: a round and a template -----

  type Template = (NegativePassage, NegativePassage)

  function Turned(template: Template, flip: bool): Template {
    if flip then (template.1, template.0) else template
  }

  /** The anchor alternates sides with the template index and the round. */
  function Oriented(template: Template, index: nat, roundNumber: nat): Template {
    Turned(template, (index + roundNumber) % 2 != 0)
  }

  /** The first slot anchors its template's first passage; the next template of a round, and the next round of a
      template, anchor the other side. */
  lemma {:induction false} SidesAlternate(template: Template, index: nat, roundNumber: nat)
    ensures Oriented(template, 0, 0) == template
    ensures Oriented(template, index + 1, roundNumber)
            == (Oriented(template, index, roundNumber).1, Oriented(template, index, roundNumber).0)
    ensures Oriented(template, index, roundNumber + 1)
            == (Oriented(template, index, roundNumber).1, Oriented(template, index, roundNumber).0)
  {
  }

  /** What a row says of its two passages. */
  lemma {:induction false} RowSays(a: NegativePassage, b: NegativePassage, digests: Digests)
    ensures var row := RowFor(a, b, digests);
            && row.passageA == a.passageId && row.passageB == b.passageId && row.partition == a.partition
            && row.contrastiveId == digests.contrastiveId(a.passageId, b.passageId)
            && IsLabel(row.corpusPair, a.corpus, b.corpus) && IsLabel(row.bookPair, a.book, b.book)
            && IsLabel(row.genrePair, a.broadGenre, b.broadGenre)
            && (a.tokenCount + row.lengthDifference == b.tokenCount
                || b.tokenCount + row.lengthDifference == a.tokenCount)
  {
    LabelIsSorted(a.corpus, b.corpus);
    LabelIsSorted(a.book, b.book);
    LabelIsSorted(a.broadGenre, b.broadGenre);
  }

  /** The two texts around a bar, the smaller one first. */
  predicate IsLabel(text: string, first: string, second: string) {
    || (AtMost(first, second) && text == first + "|" + second)
    || (AtMost(second, first) && text == second + "|" + first)
  }

  lemma {:induction false} LabelIsSorted(first: string, second: string)
    ensures IsLabel(PairLabel(first, second), first, second)
  {
    LessIsTotal(first, second);
  }

  ghost function SlotProbe(indexes: PassageIndexes, template: Template, index: nat, roundNumber: nat,
                           definition: Definition, digests: Digests): seq<Id>
    reads indexes
  {
    var (anchor, other) := Oriented(template, index, roundNumber);
    ProbeSequence(indexes.Pool(anchor, other, definition),
                  digests.probeWords(definition.seed, definition.strategy, anchor.passageId, roundNumber),
                  definition.maxCandidateAttempts)
  }

  /** Every passage the slot probes is refused. */
  ghost predicate SlotRefused(indexes: PassageIndexes, template: Template, index: nat, roundNumber: nat,
                              definition: Definition, digests: Digests, graph: set<Pair>, generated: set<Pair>)
    reads indexes
  {
    var anchor := Oriented(template, index, roundNumber).0;
    forall id :: id in SlotProbe(indexes, template, index, roundNumber, definition, digests) && id in indexes.byId ==>
      !CandidateIsValid(anchor, indexes.byId[id], definition, graph, generated)
  }

  lemma {:induction false} SlotRefusalPersists(indexes: PassageIndexes, template: Template, index: nat,
                                               roundNumber: nat, definition: Definition, digests: Digests,
                                               graph: set<Pair>, generated: set<Pair>, more: set<Pair>)
    requires generated <= more
    requires SlotRefused(indexes, template, index, roundNumber, definition, digests, graph, generated)
    ensures SlotRefused(indexes, template, index, roundNumber, definition, digests, graph, more)
  {
  }

  /** What a generated pair satisfies for the anchor and template it came from. */
  ghost predicate AcceptedFor(anchor: NegativePassage, other: NegativePassage, candidate: NegativePassage,
                              definition: Definition, graph: set<Pair>) {
    && anchor.passageId != candidate.passageId
    && CanonicalPair(anchor.passageId, candidate.passageId) !in graph
    && !Overlapping(anchor, candidate)
    && PoolAdmits(definition, anchor, other, candidate)
  }

  /** The pair was accepted for one side of one template. */
  ghost predicate ComesFrom(pair: Pair, template: Template, flip: bool, candidate: NegativePassage,
                            definition: Definition, graph: set<Pair>) {
    var (anchor, other) := Turned(template, flip);
    AcceptedFor(anchor, other, candidate, definition, graph)
      && pair == CanonicalPair(anchor.passageId, candidate.passageId)
  }

  /** A row is the canonical form of an accepted pair of known passages. */
  ghost predicate RowIsAccepted(row: NegativeRow, byId: map<Id, NegativePassage>, templates: seq<Template>,
                                definition: Definition, graph: set<Pair>, digests: Digests) {
    && Less(row.passageA, row.passageB) && row.passageA in byId && row.passageB in byId
    && row == RowFor(byId[row.passageA], byId[row.passageB], digests)
    && exists k, flip, candidate :: 0 <= k < |templates| && candidate in byId
         && ComesFrom((row.passageA, row.passageB), templates[k], flip, byId[candidate], definition, graph)
  }

  function RowFor(a: NegativePassage, b: NegativePassage, digests: Digests): NegativeRow {
    NegativeRow(digests.contrastiveId(a.passageId, b.passageId), a.passageId, b.passageId,
                PairLabel(a.corpus, b.corpus), PairLabel(a.book, b.book), PairLabel(a.broadGenre, b.broadGenre),
                AbsDiff(a.tokenCount, b.tokenCount), a.partition)
  }

  ghost predicate IsAdmitted(byId: map<Id, NegativePassage>, anchor: NegativePassage, other: NegativePassage,
                             definition: Definition, id: Id)
  {
    id in byId && byId[id].passageId == id && PoolAdmits(definition, anchor, other, byId[id])
  }

  /** The candidate stands at the place in the probe, and every passage probed before it is refused. */
  ghost predicate IsFirstValid(byId: map<Id, NegativePassage>, probe: seq<Id>, anchor: NegativePassage,
                               definition: Definition, graph: set<Pair>, generated: set<Pair>, at: nat,
                               candidate: NegativePassage) {
    && at < |probe| && probe[at] == candidate.passageId
    && CandidateIsValid(anchor, candidate, definition, graph, generated)
    && forall m :: 0 <= m < at ==>
         probe[m] in byId && !CandidateIsValid(anchor, byId[probe[m]], definition, graph, generated)
  }

  /** The candidate loop over one probe. */
  method FirstValid(byId: map<Id, NegativePassage>, probe: seq<Id>, anchor: NegativePassage, other: NegativePassage,
                    definition: Definition, graph: set<Pair>, generated: set<Pair>)
    returns (candidate: Option<NegativePassage>, ghost at: nat)
    requires forall id :: id in probe ==> IsAdmitted(byId, anchor, other, definition, id)
    ensures candidate.Some? ==> IsFirstValid(byId, probe, anchor, definition, graph, generated, at, candidate.value)
    ensures candidate.Some? ==>
              && candidate.value.passageId in byId && byId[candidate.value.passageId] == candidate.value
              && PoolAdmits(definition, anchor, other, candidate.value)
              && CandidateIsValid(anchor, candidate.value, definition, graph, generated)
    ensures candidate.None? ==>
              forall id :: id in probe ==>
                id in byId && !CandidateIsValid(anchor, byId[id], definition, graph, generated)
  {
    for k := 0 to |probe|
      invariant forall m :: 0 <= m < k ==>
                  probe[m] in byId && !CandidateIsValid(anchor, byId[probe[m]], definition, graph, generated)
    {
      assert IsAdmitted(byId, anchor, other, definition, probe[k]);
      var proposed := byId[probe[k]];
      if CandidateIsValid(anchor, proposed, definition, graph, generated) {
        return Some(proposed), k;
      }
    }
    candidate, at := None, 0;
  }

  /** The candidate loop of one slot: the first valid probed passage. */
  method FindCandidate(indexes: PassageIndexes, template: Template, index: nat, roundNumber: nat,
                       definition: Definition, digests: Digests, graph: set<Pair>, generated: set<Pair>,
                       ghost passages: seq<NegativePassage>)
    returns (candidate: Option<NegativePassage>, ghost at: nat)
    requires indexes.Describes(passages) && forall k :: 0 <= k < |passages| ==> passages[k].tokenCount >= 1
    ensures candidate.Some? ==>
              IsFirstValid(indexes.byId, SlotProbe(indexes, template, index, roundNumber, definition, digests),
                           Oriented(template, index, roundNumber).0, definition, graph, generated, at, candidate.value)
    ensures candidate.Some? ==>
              && candidate.value.passageId in indexes.byId
              && indexes.byId[candidate.value.passageId] == candidate.value
              && PoolAdmits(definition, Oriented(template, index, roundNumber).0,
                            Oriented(template, index, roundNumber).1, candidate.value)
              && CandidateIsValid(Oriented(template, index, roundNumber).0, candidate.value, definition, graph,
                                  generated)
    ensures candidate.None? ==>
              SlotRefused(indexes, template, index, roundNumber, definition, digests, graph, generated)
  {
    var (anchor, other) := Oriented(template, index, roundNumber);
    var pool := indexes.Pool(anchor, other, definition);
    var words := digests.probeWords(definition.seed, definition.strategy, anchor.passageId, roundNumber);
    var probe := ProbeOrder(pool, words, definition.maxCandidateAttempts);
    ProbeVisitsDistinctMembers(pool, words, definition.maxCandidateAttempts);
    forall id | id in probe ensures IsAdmitted(indexes.byId, anchor, other, definition, id) {
      assert id in pool;
      PoolIsExact(indexes, passages, anchor, other, definition, id);
      IndexEntryListed(passages, PassageKey(), id);
    }
    candidate, at := FirstValid(indexes.byId, probe, anchor, other, definition, graph, generated);
  }

  // ----- Refused slots in terms of passages -----

  /** The list holds exactly the passages the strategy admits for the anchor, once each. */
  ghost predicate ListsPool(pool: seq<Id>, byId: map<Id, NegativePassage>, anchor: NegativePassage,
                            other: NegativePassage, definition: Definition) {
    && Distinct(pool)
    && forall id :: id in pool <==> id in byId && PoolAdmits(definition, anchor, other, byId[id])
  }

  /** The round probed the pool of one side of a template and every probed passage is refused. */
  ghost predicate Exhausted(byId: map<Id, NegativePassage>, template: Template, flip: bool, roundNumber: nat,
                            pool: seq<Id>, definition: Definition, digests: Digests, graph: set<Pair>,
                            generated: set<Pair>) {
    var (anchor, other) := Turned(template, flip);
    var words := digests.probeWords(definition.seed, definition.strategy, anchor.passageId, roundNumber);
    && ListsPool(pool, byId, anchor, other, definition)
    && forall id :: id in ProbeSequence(pool, words, definition.maxCandidateAttempts) && id in byId ==>
         !CandidateIsValid(anchor, byId[id], definition, graph, generated)
  }

  lemma {:induction false} RefusedSlotIsExhausted(indexes: PassageIndexes, passages: seq<NegativePassage>,
                                                  template: Template, index: nat, roundNumber: nat,
                                                  definition: Definition, digests: Digests, graph: set<Pair>,
                                                  generated: set<Pair>)
    returns (flip: bool, pool: seq<Id>)
    requires indexes.Describes(passages) && forall k :: 0 <= k < |passages| ==> passages[k].tokenCount >= 1
    requires SlotRefused(indexes, template, index, roundNumber, definition, digests, graph, generated)
    ensures Exhausted(indexes.byId, template, flip, roundNumber, pool, definition, digests, graph, generated)
  {
    flip := (index + roundNumber) % 2 != 0;
    var (anchor, other) := Turned(template, flip);
    pool := indexes.Pool(anchor, other, definition);
    PoolIsListed(indexes, passages, anchor, other, definition);
  }

  lemma {:induction false} PoolIsListed(indexes: PassageIndexes, passages: seq<NegativePassage>,
                                        anchor: NegativePassage, other: NegativePassage, definition: Definition)
    requires indexes.Describes(passages) && forall k :: 0 <= k < |passages| ==> passages[k].tokenCount >= 1
    ensures ListsPool(indexes.Pool(anchor, other, definition), indexes.byId, anchor, other, definition)
  {
    PoolIsExact(indexes, passages, anchor, other, definition, "");
    forall id
      ensures id in indexes.Pool(anchor, other, definition) <==>
                id in indexes.byId && PoolAdmits(definition, anchor, other, indexes.byId[id])
    {
      PoolIsExact(indexes, passages, anchor, other, definition, id);
    }
  }

  /** When the limit covers the pool, a refused slot means that no passage at all is valid for the anchor: nothing
      the strategy admits has been overlooked by the stride. */
  lemma {:induction false} CoveringExhaustionIsTotal(byId: map<Id, NegativePassage>, template: Template, flip: bool,
                                                     roundNumber: nat, pool: seq<Id>, definition: Definition,
                                                     digests: Digests, graph: set<Pair>, generated: set<Pair>, id: Id)
    requires Exhausted(byId, template, flip, roundNumber, pool, definition, digests, graph, generated)
    requires definition.maxCandidateAttempts >= |pool|
    requires id in byId && PoolAdmits(definition, Turned(template, flip).0, Turned(template, flip).1, byId[id])
    ensures !CandidateIsValid(Turned(template, flip).0, byId[id], definition, graph, generated)
  {
    var (anchor, other) := Turned(template, flip);
    var words := digests.probeWords(definition.seed, definition.strategy, anchor.passageId, roundNumber);
    assert id in pool;
    CoveringProbeIsComplete(pool, words, definition.maxCandidateAttempts);
  }
}
