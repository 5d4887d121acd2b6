/** What the slot loops of src/echoes/benchmarks/negatives.py compute, as functions of the indexed passages and the
    ordered templates: slot by slot, the first valid passage of the probe. */
module NegativeSlots {
  import opened Wrappers
  import opened Ordering
  import opened BenchmarkRows
  import opened Dictionaries
  import opened Probe
  import opened Negatives

  type ById = map<Id, NegativePassage>

  function RowPair(row: NegativeRow): Pair {
    (row.passageA, row.passageB)
  }

  function PairsOf(rows: seq<NegativeRow>): set<Pair> {
    set row | row in rows :: RowPair(row)
  }

  /** The first known passage of the probe that is valid. */
  function FirstOf(probe: seq<Id>, byId: ById, anchor: NegativePassage, definition: Definition, graph: set<Pair>,
                   generated: set<Pair>): Option<Id>
  {
    if probe == [] then None
    else if probe[0] in byId && CandidateIsValid(anchor, byId[probe[0]], definition, graph, generated) then
      Some(probe[0])
    else FirstOf(probe[1..], byId, anchor, definition, graph, generated)
  }

  lemma {:induction false} FirstOfIsFirst(probe: seq<Id>, byId: ById, anchor: NegativePassage, definition: Definition,
                                          graph: set<Pair>, generated: set<Pair>, at: nat)
    requires at < |probe| && probe[at] in byId
             && CandidateIsValid(anchor, byId[probe[at]], definition, graph, generated)
    requires forall m :: 0 <= m < at ==>
               probe[m] in byId && !CandidateIsValid(anchor, byId[probe[m]], definition, graph, generated)
    ensures FirstOf(probe, byId, anchor, definition, graph, generated) == Some(probe[at])
  {
    if at > 0 { FirstOfIsFirst(probe[1..], byId, anchor, definition, graph, generated, at - 1); }
  }

  lemma {:induction false} FirstOfNone(probe: seq<Id>, byId: ById, anchor: NegativePassage, definition: Definition,
                                       graph: set<Pair>, generated: set<Pair>)
    requires forall id :: id in probe && id in byId ==>
               !CandidateIsValid(anchor, byId[id], definition, graph, generated)
    ensures FirstOf(probe, byId, anchor, definition, graph, generated).None?
  {
    if probe != [] { FirstOfNone(probe[1..], byId, anchor, definition, graph, generated); }
  }

  /** The probe of one slot: a bounded stride over the ordered pool of its anchor. */
  ghost function ProbeOf(byId: ById, template: Template, index: nat, roundNumber: nat, definition: Definition,
                         digests: Digests): seq<Id>
  {
    var (anchor, other) := Oriented(template, index, roundNumber);
    ProbeSequence(OrderedPool(byId, anchor, other, definition),
                  digests.probeWords(definition.seed, definition.strategy, anchor.passageId, roundNumber),
                  definition.maxCandidateAttempts)
  }

  /** What the slots of one generation have in common. */
  datatype Setting = Setting(byId: ById, templates: seq<Template>, requested: nat, definition: Definition,
                             digests: Digests, graph: set<Pair>)

  /** The row for a pair of known passages, whichever is named first. */
  function PairRow(c: Setting, first: Id, second: Id): seq<NegativeRow> {
    var (a, b) := CanonicalPair(first, second);
    if a in c.byId && b in c.byId then [RowFor(c.byId[a], c.byId[b], c.digests)] else []
  }

  /** The rows after one slot: nothing once the request is met, else a row for the first valid passage, if any. */
  ghost function AfterSlot(c: Setting, rows: seq<NegativeRow>, roundNumber: nat, index: nat): seq<NegativeRow> {
    if |rows| >= c.requested || index >= |c.templates| then rows
    else
      var anchor := Oriented(c.templates[index], index, roundNumber).0;
      var probe := ProbeOf(c.byId, c.templates[index], index, roundNumber, c.definition, c.digests);
      match FirstOf(probe, c.byId, anchor, c.definition, c.graph, PairsOf(rows))
      case None => rows
      case Some(id) => rows + PairRow(c, anchor.passageId, id)
  }

  // ----- Rounds over slots -----

  /** The state after some whole rounds of `width` steps each and the first n steps of one more. */
  ghost function Rounds<S>(step: (S, nat, nat) -> S, start: S, width: nat, roundNumber: nat, n: nat): S
    decreases roundNumber, n
  {
    if n > 0 then step(Rounds(step, start, width, roundNumber, n - 1), roundNumber, n - 1)
    else if roundNumber > 0 then Rounds(step, start, width, roundNumber - 1, width)
    else start
  }

  /** The state is one that no step changes. */
  ghost predicate IsSettled<S(!new)>(step: (S, nat, nat) -> S, s: S) {
    forall roundNumber, n :: step(s, roundNumber, n) == s
  }

  /** A settled state lasts through the rest of its round. */
  lemma {:induction false} RoundStaysSettled<S(!new)>(step: (S, nat, nat) -> S, start: S, width: nat, roundNumber: nat,
                                                      n: nat, more: nat)
    requires n <= more && IsSettled(step, Rounds(step, start, width, roundNumber, n))
    ensures Rounds(step, start, width, roundNumber, more) == Rounds(step, start, width, roundNumber, n)
    decreases more - n
  {
    if n < more { RoundStaysSettled(step, start, width, roundNumber, n, more - 1); }
  }

  /** And through all further rounds. */
  lemma {:induction false} RoundsStaySettled<S(!new)>(step: (S, nat, nat) -> S, start: S, width: nat, roundNumber: nat,
                                                      rounds: nat)
    requires roundNumber <= rounds && IsSettled(step, Rounds(step, start, width, roundNumber, 0))
    ensures Rounds(step, start, width, rounds, 0) == Rounds(step, start, width, roundNumber, 0)
    decreases rounds - roundNumber
  {
    if roundNumber < rounds {
      RoundsStaySettled(step, start, width, roundNumber, rounds - 1);
      RoundStaysSettled(step, start, width, rounds - 1, 0, width);
    }
  }

  ghost function SlotStep(c: Setting): (seq<NegativeRow>, nat, nat) -> seq<NegativeRow> {
    (rows: seq<NegativeRow>, roundNumber: nat, index: nat) => AfterSlot(c, rows, roundNumber, index)
  }

  /** The rows after some whole rounds over all templates and then the first n templates of one more. */
  ghost function AfterSlots(c: Setting, roundNumber: nat, n: nat): seq<NegativeRow> {
    Rounds(SlotStep(c), [], |c.templates|, roundNumber, n)
  }

  lemma {:induction false} MetIsSettled(c: Setting, rows: seq<NegativeRow>)
    requires |rows| >= c.requested
    ensures IsSettled(SlotStep(c), rows)
  {
  }

  /** Once the request is met, the rest of the round adds nothing. */
  lemma {:induction false} RoundStaysMet(c: Setting, roundNumber: nat, n: nat)
    requires n <= |c.templates| && |AfterSlots(c, roundNumber, n)| >= c.requested
    ensures AfterSlots(c, roundNumber, |c.templates|) == AfterSlots(c, roundNumber, n)
  {
    MetIsSettled(c, AfterSlots(c, roundNumber, n));
    RoundStaysSettled(SlotStep(c), [], |c.templates|, roundNumber, n, |c.templates|);
  }

  /** Nor do further rounds. */
  lemma {:induction false} RoundsStayMet(c: Setting, roundNumber: nat, rounds: nat)
    requires roundNumber <= rounds && |AfterSlots(c, roundNumber, 0)| >= c.requested
    ensures AfterSlots(c, rounds, 0) == AfterSlots(c, roundNumber, 0)
  {
    MetIsSettled(c, AfterSlots(c, roundNumber, 0));
    RoundsStaySettled(SlotStep(c), [], |c.templates|, roundNumber, rounds);
  }

  lemma {:induction false} SlotAdvances(c: Setting, roundNumber: nat, n: nat)
    ensures AfterSlots(c, roundNumber, n + 1) == AfterSlot(c, AfterSlots(c, roundNumber, n), roundNumber, n)
    ensures AfterSlots(c, roundNumber + 1, 0) == AfterSlots(c, roundNumber, |c.templates|)
  {
  }
}
