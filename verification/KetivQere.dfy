/** The derived Ketiv and Qere streams of src/echoes/corpus/analysis.py: one reading of every complete pair, all
    other tokens, and fresh positions. */
module KetivQere {
  import opened Wrappers
  import opened Ordering
  import Dictionaries

  const QERE: string := "qere"
  const KETIV: string := "ketiv"

  datatype Token = Token(
    tokenId: Id, editionReference: string, group: Option<Id>, variant: Option<string>,
    book: string, chapter: int, verse: int, clause: Option<Id>, position: int)

  datatype Verse = Verse(book: string, chapter: int, verse: int)

  function VerseOf(t: Token): Verse { Verse(t.book, t.chapter, t.verse) }

  datatype Row = Row(
    reading: string, tokenId: Id, editionReference: string, group: Option<Id>, variant: Option<string>,
    inVerse: nat, inClause: Option<nat>, inCorpus: nat)

  /** The distinct readings of a group; a token without one counts as a reading of its own. */
  function Variants(tokens: seq<Token>, group: Id): set<Option<string>> {
    set t | t in tokens && t.group == Some(group) :: t.variant
  }

  predicate IsPaired(tokens: seq<Token>, group: Id) {
    |Variants(tokens, group)| == 2 && Some(QERE) in Variants(tokens, group) && Some(KETIV) in Variants(tokens, group)
  }

  predicate InPair(tokens: seq<Token>, t: Token) {
    t.group.Some? && IsPaired(tokens, t.group.value)
  }

  predicate Keeps(tokens: seq<Token>, reading: string, t: Token) {
    !InPair(tokens, t) || t.variant == Some(reading)
  }

  function Select(s: seq<Token>, tokens: seq<Token>, reading: string): seq<Token> {
    if s == [] then []
    else (if Keeps(tokens, reading, s[0]) then [s[0]] else []) + Select(s[1..], tokens, reading)
  }

  ghost predicate InOrder(s: seq<Token>) {
    forall i, j | 0 <= i < j < |s| :: s[i].position <= s[j].position
  }

  function Insert(t: Token, s: seq<Token>): (r: seq<Token>)
    requires InOrder(s)
    ensures InOrder(r) && multiset(r) == multiset(s) + multiset{t}
  {
    if s == [] then [t]
    else if t.position <= s[0].position then [t] + s
    else
      assert s == [s[0]] + s[1..];
      var rest := Insert(t, s[1..]);
      HeadStaysFirst(t, s, rest);
      [s[0]] + rest
  }

  lemma {:induction false} HeadStaysFirst(t: Token, s: seq<Token>, rest: seq<Token>)
    requires s != [] && InOrder(s) && s[0].position < t.position
    requires InOrder(rest) && multiset(rest) == multiset(s[1..]) + multiset{t}
    ensures InOrder([s[0]] + rest)
  {
    forall i | 0 <= i < |rest|
      ensures s[0].position <= rest[i].position
    {
      assert rest[i] in multiset(rest);
      if rest[i] != t {
        var k :| 0 <= k < |s[1..]| && s[1..][k] == rest[i];
      }
    }
  }

  function Sort(s: seq<Token>): (r: seq<Token>)
    ensures InOrder(r) && multiset(r) == multiset(s)
  {
    if s == [] then []
    else
      assert s == [s[0]] + s[1..];
      Insert(s[0], Sort(s[1..]))
  }

  /** How many of the first n tokens satisfy the test. */
  function Count(s: seq<Token>, n: nat, test: Token -> bool): nat
    requires n <= |s|
  {
    if n == 0 then 0 else Count(s, n - 1, test) + if test(s[n - 1]) then 1 else 0
  }

  function SameVerse(v: Verse): Token -> bool { (t: Token) => VerseOf(t) == v }

  function SameClause(c: Id): Token -> bool { (t: Token) => t.clause == Some(c) }

  function RowAt(s: seq<Token>, i: nat, reading: string): Row
    requires i < |s|
  {
    var t := s[i];
    Row(reading, t.tokenId, t.editionReference, t.group, t.variant, Count(s, i + 1, SameVerse(VerseOf(t))),
        if t.clause.Some? then Some(Count(s, i + 1, SameClause(t.clause.value))) else None, i + 1)
  }

  /** The tokens of a stream, in order. */
  function Stream(tokens: seq<Token>, reading: string): seq<Token> { Sort(Select(tokens, tokens, reading)) }

  /** `derive_analysis_stream` */
  function Derive(tokens: seq<Token>, reading: string): Result<seq<Row>, string> {
    if reading != QERE && reading != KETIV then Failure("analysis_reading must be 'qere' or 'ketiv'")
    else var s := Stream(tokens, reading); Success(seq(|s|, i requires 0 <= i < |s| => RowAt(s, i, reading)))
  }

  // ---- which tokens each stream holds ----

  /** A group is a complete pair exactly when both readings occur in it and nothing else does. */
  lemma {:induction false} PairedExactlyWhen(tokens: seq<Token>, group: Id)
    ensures IsPaired(tokens, group) <==> Variants(tokens, group) == {Some(QERE), Some(KETIV)}
  {
    var pair := {Some(QERE), Some(KETIV)};
    if IsPaired(tokens, group) {
      assert |Variants(tokens, group) - pair| == |Variants(tokens, group)| - |pair|;
      assert Variants(tokens, group) - pair == {};
    }
  }

  /** A token of a complete pair is in exactly one of the two streams; any other token is in both. No consistency
      of the readings is needed. */
  lemma {:induction false} EachTokenIsPlaced(tokens: seq<Token>, t: Token)
    requires t in tokens
    ensures InPair(tokens, t) ==> (Keeps(tokens, QERE, t) <==> !Keeps(tokens, KETIV, t))
    ensures !InPair(tokens, t) ==> Keeps(tokens, QERE, t) && Keeps(tokens, KETIV, t)
  {
    if InPair(tokens, t) {
      PairedExactlyWhen(tokens, t.group.value);
      assert t.variant in Variants(tokens, t.group.value);
    }
  }

  lemma {:induction false} SelectHolds(s: seq<Token>, tokens: seq<Token>, reading: string, t: Token)
    ensures multiset(Select(s, tokens, reading))[t] == if Keeps(tokens, reading, t) then multiset(s)[t] else 0
  {
    if s != [] {
      SelectHolds(s[1..], tokens, reading, t);
      assert s == [s[0]] + s[1..];
      var head := if Keeps(tokens, reading, s[0]) then [s[0]] else [];
      assert Select(s, tokens, reading) == head + Select(s[1..], tokens, reading);
    }
  }

  /** A stream holds a token as often as the corpus does when it keeps it, and not at all otherwise; so every token
      of a complete pair goes, with all its occurrences, to one stream, and every other token to both. */
  lemma {:induction false} StreamsPartitionPairs(tokens: seq<Token>, t: Token)
    ensures var q := multiset(Stream(tokens, QERE))[t]; var k := multiset(Stream(tokens, KETIV))[t];
            var all := multiset(tokens)[t];
            if InPair(tokens, t) then (q == all && k == 0) || (q == 0 && k == all) else q == all && k == all
  {
    SelectHolds(tokens, tokens, QERE, t);
    SelectHolds(tokens, tokens, KETIV, t);
    if t in multiset(tokens) {
      EachTokenIsPlaced(tokens, t);
    }
  }

  /** The group has a qere token and a ketiv token, and no token that is neither. */
  ghost predicate HasBothReadings(tokens: seq<Token>, group: Id) {
    && (exists t :: t in tokens && t.group == Some(group) && t.variant == Some("qere"))
    && (exists t :: t in tokens && t.group == Some(group) && t.variant == Some("ketiv"))
    && (forall t :: t in tokens && t.group == Some(group) ==> t.variant == Some("qere") || t.variant == Some("ketiv"))
  }

  lemma {:induction false} PairedMeansBothReadings(tokens: seq<Token>, group: Id)
    ensures IsPaired(tokens, group) <==> HasBothReadings(tokens, group)
  {
    PairedExactlyWhen(tokens, group);
    if HasBothReadings(tokens, group) {
      assert Variants(tokens, group) == {Some(QERE), Some(KETIV)};
    } else if IsPaired(tokens, group) {
      assert Some(QERE) in Variants(tokens, group) && Some(KETIV) in Variants(tokens, group);
      assert forall t :: t in tokens && t.group == Some(group) ==> t.variant in Variants(tokens, group);
    }
  }

  /** The stream of a reading drops exactly the tokens of the opposite reading in groups that have both, and holds
      every other token as often as the corpus does. */
  lemma {:induction false} StreamTakesItsReading(tokens: seq<Token>, reading: string, t: Token)
    ensures multiset(Stream(tokens, reading))[t] ==
            if t.group.Some? && HasBothReadings(tokens, t.group.value) && t.variant != Some(reading) then 0
            else multiset(tokens)[t]
  {
    SelectHolds(tokens, tokens, reading, t);
    if t.group.Some? { PairedMeansBothReadings(tokens, t.group.value); }
  }

  /** So no derived row of such a group carries the opposite reading. */
  lemma {:induction false} RowsCarryTheirReading(tokens: seq<Token>, reading: string, i: nat)
    requires (reading == "qere" || reading == "ketiv") && i < |Derive(tokens, reading).value|
    ensures var row := Derive(tokens, reading).value[i];
            row.reading == reading
            && (row.group.Some? && HasBothReadings(tokens, row.group.value) ==> row.variant == Some(reading))
  {
    var t := Stream(tokens, reading)[i];
    assert t in multiset(Stream(tokens, reading));
    StreamTakesItsReading(tokens, reading, t);
  }

  function Outside(tokens: seq<Token>): Token -> bool { (t: Token) => !InPair(tokens, t) }

  lemma {:induction false} SelectedSizes(s: seq<Token>, tokens: seq<Token>, n: nat)
    requires n <= |s| && forall t | t in s :: t in tokens
    ensures |Select(s[|s| - n..], tokens, QERE)| + |Select(s[|s| - n..], tokens, KETIV)|
            == n + Count(s, |s|, Outside(tokens)) - Count(s, |s| - n, Outside(tokens))
  {
    if n == 0 {
      assert s[|s|..] == [];
    } else {
      SelectedSizes(s, tokens, n - 1);
      var rest := s[|s| - n..];
      assert rest[1..] == s[|s| - (n - 1)..];
      EachTokenIsPlaced(tokens, rest[0]);
    }
  }

  /** The two streams together are as long as the corpus and its tokens outside complete pairs. */
  lemma {:induction false} StreamSizesAddUp(tokens: seq<Token>)
    ensures |Stream(tokens, QERE)| + |Stream(tokens, KETIV)| == |tokens| + Count(tokens, |tokens|, Outside(tokens))
  {
    SelectedSizes(tokens, tokens, |tokens|);
    assert tokens[|tokens| - |tokens|..] == tokens;
    SameSize(Stream(tokens, QERE), Select(tokens, tokens, QERE));
    SameSize(Stream(tokens, KETIV), Select(tokens, tokens, KETIV));
  }

  lemma {:induction false} SameSize<T>(a: seq<T>, b: seq<T>)
    requires multiset(a) == multiset(b)
    ensures |a| == |b|
  {
    assert |multiset(a)| == |a| && |multiset(b)| == |b|;
  }

  // ---- positions ----

  /** The positions the test's tokens get among the first n, in stream order. */
  function Positions(s: seq<Token>, n: nat, test: Token -> bool, position: nat -> nat): seq<nat>
    requires n <= |s|
  {
    if n == 0 then []
    else Positions(s, n - 1, test, position) + if test(s[n - 1]) then [position(n - 1)] else []
  }

  predicate CountsFromOne(positions: seq<nat>) {
    forall k | 0 <= k < |positions| :: positions[k] == k + 1
  }

  lemma {:induction false} RanksCountFromOne(s: seq<Token>, n: nat, test: Token -> bool, position: nat -> nat)
    requires n <= |s|
    requires forall i: nat | i < |s| && test(s[i]) :: position(i) == Count(s, i + 1, test)
    ensures |Positions(s, n, test, position)| == Count(s, n, test)
    ensures CountsFromOne(Positions(s, n, test, position))
  {
    if n > 0 {
      RanksCountFromOne(s, n - 1, test, position);
    }
  }

  function VersePosition(rows: seq<Row>): nat -> nat { (i: nat) => if i < |rows| then rows[i].inVerse else 0 }

  function ClausePosition(rows: seq<Row>): nat -> nat {
    (i: nat) => if i < |rows| && rows[i].inClause.Some? then rows[i].inClause.value else 0
  }

  /** Rows carry their tokens, in source order; their positions in the corpus, in every verse and in every
      clause each run 1, 2, 3 without a gap, and a clause position is given exactly to tokens with a clause. */
  lemma {:induction false} PositionsAreContiguous(tokens: seq<Token>, reading: string, verse: Verse, clause: Id)
    requires reading == QERE || reading == KETIV
    ensures var s := Stream(tokens, reading); var rows := Derive(tokens, reading).value;
            && |rows| == |s| && InOrder(s)
            && (forall i | 0 <= i < |s| ::
                  && rows[i].reading == reading && rows[i].tokenId == s[i].tokenId
                  && rows[i].editionReference == s[i].editionReference
                  && rows[i].group == s[i].group && rows[i].variant == s[i].variant
                  && rows[i].inCorpus == i + 1 && (rows[i].inClause.Some? <==> s[i].clause.Some?))
            && CountsFromOne(Positions(s, |s|, SameVerse(verse), VersePosition(rows)))
            && CountsFromOne(Positions(s, |s|, SameClause(clause), ClausePosition(rows)))
  {
    var s := Stream(tokens, reading);
    var rows := Derive(tokens, reading).value;
    RanksCountFromOne(s, |s|, SameVerse(verse), VersePosition(rows));
    RanksCountFromOne(s, |s|, SameClause(clause), ClausePosition(rows));
  }

  lemma {:induction false} CountIsSize(s: seq<Token>, n: nat, test: Token -> bool)
    requires n <= |s|
    ensures Count(s, n, test) == |set j | 0 <= j < n && test(s[j])|
  {
    if n > 0 {
      CountIsSize(s, n - 1, test);
      var before := set j | 0 <= j < n - 1 && test(s[j]);
      assert (set j | 0 <= j < n && test(s[j])) == before + if test(s[n - 1]) then {n - 1} else {};
    }
  }

  /** A row's positions are one more than the number of earlier tokens in its book, chapter and verse, in its clause,
      and in the stream; a token outside all clauses has no clause position. */
  lemma {:induction false} PositionsCountEarlierTokens(tokens: seq<Token>, reading: string, i: nat)
    requires (reading == "qere" || reading == "ketiv") && i < |Derive(tokens, reading).value|
    ensures var s := Stream(tokens, reading); var row := Derive(tokens, reading).value[i];
            && |s| == |Derive(tokens, reading).value|
            && row.inCorpus == i + 1
            && row.inVerse == 1 + |set j | 0 <= j < i && s[j].book == s[i].book && s[j].chapter == s[i].chapter
                                           && s[j].verse == s[i].verse|
            && row.inClause == match s[i].clause
                               case None => None
                               case Some(_) => Some(1 + |set j | 0 <= j < i && s[j].clause == s[i].clause|)
  {
    var s := Stream(tokens, reading);
    CountIsSize(s, i, SameVerse(VerseOf(s[i])));
    assert (set j | 0 <= j < i && SameVerse(VerseOf(s[i]))(s[j]))
        == set j | 0 <= j < i && s[j].book == s[i].book && s[j].chapter == s[i].chapter && s[j].verse == s[i].verse;
    if s[i].clause.Some? {
      CountIsSize(s, i, SameClause(s[i].clause.value));
      assert (set j | 0 <= j < i && SameClause(s[i].clause.value)(s[j]))
          == set j | 0 <= j < i && s[j].clause == s[i].clause;
    }
  }

  // ---- the order of the input ----

  ghost predicate Strict(s: seq<Token>) {
    forall i, j | 0 <= i < j < |s| :: s[i].position < s[j].position
  }

  lemma {:induction false} HeadIsFirst(a: seq<Token>, b: seq<Token>)
    requires Strict(a) && Strict(b) && multiset(a) == multiset(b) && a != []
    ensures b != [] && a[0] == b[0]
  {
    assert a[0] in multiset(a) && |multiset(a)| == |multiset(b)|;
    assert b[0] in multiset(b);
    var i :| 0 <= i < |b| && b[i] == a[0];
    var j :| 0 <= j < |a| && a[j] == b[0];
  }

  lemma {:induction false} TailMultiset(s: seq<Token>)
    requires s != []
    ensures s == [s[0]] + s[1..] && multiset(s[1..]) == multiset(s) - multiset{s[0]}
  {
    assert s == [s[0]] + s[1..];
  }

  lemma {:induction false} StrictIsUnique(a: seq<Token>, b: seq<Token>)
    requires Strict(a) && Strict(b) && multiset(a) == multiset(b)
    ensures a == b
  {
    if a == [] {
      assert |multiset(b)| == |b|;
    } else {
      HeadIsFirst(a, b);
      TailMultiset(a);
      TailMultiset(b);
      StrictIsUnique(a[1..], b[1..]);
    }
  }

  ghost predicate PositionsTellApart(s: multiset<Token>) {
    forall t | t in s :: s[t] == 1 && forall u | u in s :: u.position == t.position ==> u == t
  }

  lemma {:induction false} OrderedIsStrict(s: seq<Token>)
    requires InOrder(s) && PositionsTellApart(multiset(s))
    ensures Strict(s)
  {
    forall i, j | 0 <= i < j < |s|
      ensures s[i].position < s[j].position
    {
      assert s[i] in multiset(s) && s[j] in multiset(s);
      SingleDiffers(s, i, j);
    }
  }

  lemma {:induction false} SingleDiffers(s: seq<Token>, i: nat, j: nat)
    requires i < j < |s| && multiset(s)[s[i]] == 1
    ensures s[i] != s[j]
  {
    if s[i] == s[j] {
      Dictionaries.CountOfRepeat(s, i, j);
    }
  }

  /** When no two tokens share a position, the derived stream does not depend on the order of the input rows. */
  lemma {:induction false} InputOrderDoesNotMatter(a: seq<Token>, b: seq<Token>, reading: string)
    requires multiset(a) == multiset(b) && PositionsTellApart(multiset(a))
    ensures Derive(a, reading) == Derive(b, reading)
  {
    SameSelection(a, b, reading);
    var p, q := Select(a, a, reading), Select(b, b, reading);
    OrderedIsStrict(Sort(p));
    OrderedIsStrict(Sort(q));
    StrictIsUnique(Sort(p), Sort(q));
  }

  lemma {:induction false} SameSelection(a: seq<Token>, b: seq<Token>, reading: string)
    requires multiset(a) == multiset(b) && PositionsTellApart(multiset(a))
    ensures multiset(Select(a, a, reading)) == multiset(Select(b, b, reading))
    ensures PositionsTellApart(multiset(Select(a, a, reading)))
  {
    SamePairs(a, b);
    var p, q := multiset(Select(a, a, reading)), multiset(Select(b, b, reading));
    forall t
      ensures p[t] == q[t] && p[t] <= multiset(a)[t]
    {
      SelectHolds(a, a, reading, t);
      SelectHolds(b, b, reading, t);
    }
    assert p == q;
    PartTellsApart(p, multiset(a));
  }

  lemma {:induction false} PartTellsApart(part: multiset<Token>, whole: multiset<Token>)
    requires PositionsTellApart(whole) && forall t :: part[t] <= whole[t]
    ensures PositionsTellApart(part)
  {
    forall t | t in part
      ensures part[t] == 1 && t in whole
    {
      assert part[t] <= whole[t];
    }
  }

  lemma {:induction false} SamePairs(a: seq<Token>, b: seq<Token>)
    requires multiset(a) == multiset(b)
    ensures forall t :: InPair(a, t) <==> InPair(b, t)
  {
    assert forall t :: (t in a <==> t in multiset(a)) && (t in b <==> t in multiset(b));
    forall group
      ensures Variants(a, group) == Variants(b, group)
    {
      assert forall t :: t in a <==> t in b;
    }
  }
}
