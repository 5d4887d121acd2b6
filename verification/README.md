# Project Echoes: a verified model of the benchmark builder and its stateful neighbours

Project Echoes builds a benchmark of known links between biblical passages and records how every experiment over it
was run. This project models, in Dafny, the parts of that program whose correctness is not visible in any single
function, and proves what they promise for all inputs, all runs and all placements of failures.

* **Leakage, splits and exclusion.** A union-find with path compression must compute exactly connectivity through
  shared leakage groups, and the partitions decided from its components must never leak. A second, deliberately
  non-transitive pass excludes every eligible member of a group that crosses partitions. A priority-queue sweep stands
  for all-pairs overlap of intervals, first on ordinals, then on the reference spans those ordinals were packed from
  and on the passages they were numbered by. The parts compose: the endpoints of mapped relationships become leakage
  rows, the rows decide partitions, and two relationships that survive in different partitions have reference spans
  that do not intersect and map to no common passage (`LeakageSafety.SurvivorsDoNotMeet`,
  `LeakageSafety.SurvivorsShareNoTarget`).
* **Presumed negatives.** A coprime-stride probe over indexed pools, inside round and template loops, must return an
  exact number of fresh, same-partition pairs that are in no positive relationship.
* **References and mapping.** A parser and a printer that undo each other, a range expander, two binary searches that
  stand for a filter, and a status decision that claims something about the verses present.
* **Metrics.** Bounds and exchange arguments for nDCG, and stratified means that recombine to the global mean.
* **State machines.** The execution recorder with failing writes and unlinks, resume lineage and recovery; and the
  forced replacement of an acquired source under failure of any operation.
* **Streams.** The Ketiv and Qere streams, the weighted-cycle deal of positive controls, and the length-framed digest
  of the OpenBible table.

Loops, objects and in-place updates of the program are methods and classes here, each proved against a specification
function or predicate; the laws are lemmas about those specifications. Identifiers are strings in lexicographic order.
Digests, hash fractions, the alias registry, verse bounds, the rank discount and byte decoding are parameters; where a
law needs a digest without collisions it says so. Ratios and proportions are reals.

## What the code does not meet

Each of these is proved with a concrete input and, for all inputs, the exact condition under which the code meets
the property.

* A parsed reference can trip the ordered-interval check of leakage endpoints: the parser does not bound verses, and
  `chapter * 1000 + verse` runs backward when the first verse exceeds the last by more than a thousand per chapter
  crossed. The parser accepts `Gen.1.1500-Gen.2.1` (`LeakageInputs.LargeVersePacksBackward`,
  `LeakageInputs.BackwardRangesAreAccepted`, `LeakageInputs.ParsedSpanTripsExactlyWhen`).
* nDCG of a query without relevant passages is zero although its leading ranks leave nothing relevant out
  (`RankingMetrics.NothingRelevantScoresZero`), so "one exactly when the leading ranks are relevant" needs a relevant
  passage (`RankingMetrics.NdcgIsOneExactlyWhenLeading`).
* An execution has two files after a failed unlink in `bind_run`, one more for each such failure, and never gets rid of
  one again (`ExecutionExamples.FailedUnlinkLeavesTwoFiles`, `ExecutionTheorems.OneFileExactlyWhenNoStray`).
* A recorder that is still live behind a recovery writes its own outcome over the recovered success
  (`ExecutionExamples.RecoveredRecordIsOverwritten`): exactly when it then makes a call that passes and does not itself
  declare success (`ExecutionFinality.SucceededIsLostExactlyWhen`). As long as no recovery is pointed at a live
  recorder's own file, a status on disk moves only from running to succeeded or to failed, over every run
  (`ExecutionFinality.FinalRecordsStay`).

## What the code leans on

Three properties hold of the program although the function that should ensure them does not: each rests on what
another part supplies. The dependency is proved with an input, and the property under what discharges it.

* The mapping decision compares reference labels and never coordinates. On targets whose labels do not determine their
  coordinates it would call a `critical_core` range provisional that misses a verse
  (`MappingDecision.ProvisionalMayMissAVerse`, `MappingDecision.ProvisionalIsEveryVerseExactlyWhen`). The one loader of
  the index reads coordinates out of the labels, so over every index it builds, and for every profile, a provisional
  same-chapter range is every verse in order (`PassageLoading.FromRows`, `PassageLoading.LoadedProvisionalIsEveryVerse`).
* The leakage report joins groups by identifier, the exclusion pass by identifier and type. With one identifier under
  two types an assignment would be a fixed point of exclusion and still be reported
  (`ConflictTheorems.SharedIdentifierEscapesExclusion`); the two agree exactly when identifiers respect types
  (`ConflictTheorems.FixedPointsMeetTheReport`). Identifiers are digests over the type, so they do
  (`ConflictTheorems.TypedFixedPointsMeetTheReport`, and for the rows of the leakage views
  `LeakageSafety.ViewFixedPointsMeetTheReport`).
* The book-pair view joins two book names by a bar, so it would bring different pairs together if a name held one
  (`LeakageViews.SeparatorJoinsPairs`). Canonical book codes and the name given to unresolved endpoints hold none, and
  then it brings exactly the same pairs together (`LeakageViews.RowsTogetherExactlyWhenSameBooks`).

Three smaller findings: the recovery's documented preservation of earlier error text can never happen, since a record
with errors is a failed one and is refused (`ExecutionProvenance.RecoveryHasNoErrorsToPreserve`); the validator's check
for an unpopulated partition never fails once the splits are as dealt
(`PositiveControls.FrozenGroupsArePopulated`); and the Ketiv and Qere split needs no consistency of readings within a
variant group (`KetivQere.EachTokenIsPlaced`). A forced acquisition may also raise although the new tree stands,
complete, at its target: exactly when removing the backup fails (`Acquisition.AcquireSource`).

## Reading order

`Wrappers`, `Ordering`, `Dictionaries`, `Text`, `BenchmarkRows` and `Connectivity` are shared vocabulary. Then, by
subject: `DisjointSet`, `Splits`, `SplitViolations`, `SplitTheorems`, `ConflictExclusion`, `ConflictTheorems`,
`PipelineSplits`; `LeakageSweep`, `LeakageInputs`, `LeakageRows`, `LeakageGroups`, `PipelineLeakage`, `LeakageSafety`,
`LeakageViews`; `NumberTheory`, `Probe`, `Negatives`, `NegativeSlots`, `NegativeGeneration`, `NegativeTemplates`;
`References`, `ReferenceGrammar`, `Coordinates`, `Mapping`, `MappingDecision`, `PassageLoading`, `MappingStatuses`;
`RankingMetrics`, `StratifiedMetrics`; `ReproductionCommands`, `ExecutionManifests`, `ExecutionPaths`, `ExecutionRuns`,
`ExecutionTheorems`, `ExecutionFinality`, `ExecutionLineage`, `ExecutionProvenance`, `ExecutionExamples`,
`ExecutionRecorder`; `Acquisition`; `KetivQere`; `WeightedCycle`, `PositiveControls`; `ByteLines`, `CanonicalStream`,
`OpenBibleSource`. `dafny verify dfyconfig.toml` checks everything.

## Model

| member | source | states |
|---|---|---|
| DisjointSets.CompressionKeepsRoots | src/echoes/benchmarks/splits.py:116-120 | hanging a value under its root keeps the forest well founded and changes no value's root |
| DisjointSets.LinkMerges | src/echoes/benchmarks/splits.py:122-128 | hanging the larger root under the smaller merges exactly the two classes and keeps parents at most their children |
| DisjointSets.RootsAreLeastLabels | src/echoes/benchmarks/splits.py:112-128 | roots label themselves and are no larger than what they label |
| DisjointSets.DisjointSet.constructor | src/echoes/benchmarks/splits.py:113-114 | every value starts as its own root |
| DisjointSets.DisjointSet.Find | src/echoes/benchmarks/splits.py:116-120 | terminates, returns the root and, while compressing the path, leaves the abstract partition unchanged |
| DisjointSets.DisjointSet.Union | src/echoes/benchmarks/splits.py:122-128 | the abstract partition becomes the old one with two classes merged under the smaller root |
| Splits.LabelsAreConnectivity | src/echoes/benchmarks/splits.py:203-208 | after all unions two relationships have equal roots if and only if a chain of shared enforced groups joins them |
| Splits.JoinedForest | src/echoes/benchmarks/splits.py:203-208 | the loop over groups and members builds a forest whose labels are exactly that connectivity |
| Splits.CollectMemberships | src/echoes/benchmarks/splits.py:197-201 | the two dictionaries hold exactly the enforced memberships of known relationships |
| Splits.CollectComponents | src/echoes/benchmarks/splits.py:210-212 | the lists are, for each root, exactly the identifiers with that root, in the order of the sorted identifiers |
| Splits.DecideComponents | src/echoes/benchmarks/splits.py:214-231 | a component is excluded with the sorted reasons of its ineligible members, else held out when a member is, else trains |
| Splits.GenerateSplitAssignments | src/echoes/benchmarks/splits.py:177-254 | duplicate identifiers are refused; otherwise the rows are those of a specification by connectivity that names only sets |
| SplitTheorems.RootIsLeastOfComponent | src/echoes/benchmarks/splits.py:122-128 | every root is the least identifier of its connected component |
| SplitTheorems.ConnectedSharePartition | src/echoes/benchmarks/splits.py:214-254 | connected relationships share their partition |
| SplitTheorems.PartitionMeaning | src/echoes/benchmarks/splits.py:214-231 | excluded, held out or train exactly by the existence of a chain to an ineligible or held-out relationship |
| SplitTheorems.AssignmentMeans | src/echoes/benchmarks/splits.py:148-254 | in the fields of the relationships: a row is excluded, held out or training by the tier, mapping, family and held-out values of what its chains lead to |
| SplitTheorems.ReasonMeans | src/echoes/benchmarks/splits.py:214-240 | an excluded row gives the sorted reasons of all failures its chains lead to, marked as a member's when its own relationship has none |
| SplitTheorems.NamedGroupIsLeast | src/echoes/benchmarks/splits.py:241-250 | it names the least group that binds its relationship, if one does |
| SplitTheorems.NoLeakage | src/echoes/benchmarks/splits.py:177-272 | the leakage check over a definition's own assignments and effective group types reports nothing |
| SplitTheorems.OrderDoesNotMatter | src/echoes/benchmarks/splits.py:177-254 | permuting relationships, or permuting or repeating group rows, changes no row of the result |
| SplitViolations.SplitLeakageViolations | src/echoes/benchmarks/splits.py:257-272 | reports exactly the configured groups with eligible members in two partitions, sorted, once each |
| ConflictExclusion.ConflictIsLeastCrossingGroup | src/echoes/benchmarks/pipeline.py:838-904 | the group written on an excluded row is the least crossing configured group of an eligible relationship, and there is one exactly when one crosses |
| ConflictExclusion.ExclusionSeparates | src/echoes/benchmarks/pipeline.py:838-912 | after the pass no configured group has eligible members in two partitions |
| ConflictExclusion.FixedExactlyWhenSeparated | src/echoes/benchmarks/pipeline.py:838-912 | the pass is a no-op if and only if nothing crosses |
| ConflictExclusion.ExclusionIsIdempotent | src/echoes/benchmarks/pipeline.py:838-912 | a second pass changes nothing |
| ConflictExclusion.RowChangesExactlyWhenConflicting | src/echoes/benchmarks/pipeline.py:838-912 | a row changes if and only if it was eligible and in a crossing group |
| ConflictExclusion.ExcludedExactlyWhenSplit | src/echoes/benchmarks/pipeline.py:838-912 | of the rows alone: excluded afterwards if and only if excluded before or in a configured group with placed members in two partitions |
| ConflictExclusion.ExcludedRowNamesItsGroup | src/echoes/benchmarks/pipeline.py:880-912 | such a row gives the least such group and its type in its reason, and is no longer eligible; every other placed row stays as it was |
| ConflictTheorems.UntypedShareEscapesExclusion | src/echoes/benchmarks/splits.py:257-272 | any two relationships sharing an identifier under two types and no typed group: kept by exclusion, reported as leaking |
| ConflictTheorems.SharedIdentifierEscapesExclusion | src/echoes/benchmarks/splits.py:257-272 | two literal group rows on which that happens |
| ConflictTheorems.FixedPointsMeetTheReport | src/echoes/benchmarks/pipeline.py:838-912 | fixed points of exclusion are the unreported assignments, for every assignment, if and only if identifiers respect types |
| ConflictTheorems.TypedFixedPointsMeetTheReport | src/echoes/benchmarks/leakage.py:105-112 | when the type can be read off the identifier, as off a digest over it, the two coincide without a condition |
| ConflictTheorems.ExclusionKeepsUnionFindSplits | src/echoes/benchmarks/pipeline.py:838-912 | exclusion is a no-op on what the union-find assignment produces |
| PipelineSplits.StrategyFrame | src/echoes/benchmarks/pipeline.py:701-809 | the row loop and the exclusion pass yield the frame the next two lemmas speak of |
| PipelineSplits.SurvivorsHoldOut | src/echoes/benchmarks/pipeline.py:600-607 | a surviving row keeps its placement and pair group and holds no value drawn for a partition beyond its own and one drawn for it; rows are excluded exactly when they state a reason |
| PipelineSplits.SurvivorsFollowFractions | src/echoes/benchmarks/pipeline.py:600-607 | for every strategy, a surviving row is test, development or training by how the fractions of its held-out values compare with the configured shares |
| PipelineSplits.PlacementExcludesExactlyWhen | src/echoes/benchmarks/pipeline.py:701-762 | which relationships are excluded before conflicts, each reason exactly under its condition |
| PipelineSplits.FrameExcludesExactlyWhen | src/echoes/benchmarks/pipeline.py:701-809 | a row of the frame is excluded exactly by its placement or by a configured group with placed members in two partitions |
| PipelineSplits.SurvivorsAreApart | src/echoes/benchmarks/pipeline.py:701-809 | surviving rows in different partitions share no enforced group, no held-out passage or book pair, and no book or genre drawn beyond the nearer partition |
| LeakageSweep.PopExpired | src/echoes/benchmarks/leakage.py:158-162 | drops exactly the ended entries, the counter still mirroring the queue |
| LeakageSweep.PushStarting | src/echoes/benchmarks/leakage.py:163-166 | pushes every interval of one start, the counter still mirroring the queue |
| LeakageSweep.CountedAreStabbed | src/echoes/benchmarks/leakage.py:153-168 | after the pushes the counter's keys are exactly the relationships with an interval containing the start |
| LeakageSweep.AtomicOverlapGroups | src/echoes/benchmarks/leakage.py:135-178 | emits for each real start, in order, exactly the relationships stabbed there, whenever there are two |
| LeakageSweep.SharedGroupIsOverlap | src/echoes/benchmarks/leakage.py:135-178 | distinct relationships share a group if and only if they own intersecting intervals in one book |
| LeakageSweep.SweepIsDetermined | src/echoes/benchmarks/leakage.py:135-178 | the emitted groups depend on the set of intervals alone |
| LeakageInputs.PackingIsOrderIsomorphic | src/echoes/benchmarks/pipeline.py:573-583 | below verse 1000 packed ordinals compare as chapter and verse do, and are equal only for equal coordinates |
| LeakageInputs.ParsedSpanPacksInOrder | src/echoes/benchmarks/leakage.py:55-59 | no parsed span below verse 1000 trips the ordered-interval check |
| LeakageInputs.ParsedSpanTripsExactlyWhen | src/echoes/benchmarks/leakage.py:55-59 | a parsed span trips it exactly when its verses run back by more than a thousand per chapter crossed |
| LeakageInputs.BackwardRangesAreAccepted | src/echoes/benchmarks/pipeline.py:573-583 | so do all such ranges: every pair of governed points that runs back so far is, printed, accepted by the parser and trips it |
| LeakageInputs.LargeVersePacksBackward | src/echoes/benchmarks/references.py:320-410 | the parser accepts "Gen.1.1500-Gen.2.1", and that span trips the check |
| LeakageInputs.SourceOverlapGroups | src/echoes/benchmarks/pipeline.py:510-597 | end to end: two relationships share a source overlap group if and only if their reference spans intersect by chapter and verse |
| LeakageRows.RelatedAreTogether | src/echoes/benchmarks/leakage.py:181-320 | relationships with a common key, or with intersecting intervals, share a group of that view, whatever the digest |
| LeakageRows.ViewIsRelation | src/echoes/benchmarks/leakage.py:181-320 | where identifiers tell groups apart, they share one if and only if they have a common key or intersecting intervals |
| LeakageRows.IdentifierNamesView | src/echoes/benchmarks/leakage.py:105-112 | rows of one identifier are then rows of one group type |
| LeakageGroups.LeakageGroupRows | src/echoes/benchmarks/leakage.py:181-320 | refuses exactly repeated relationships; otherwise its rows are those of the views, lone members only in the views that keep them |
| PipelineLeakage.BuildInputs | src/echoes/benchmarks/pipeline.py:510-597 | succeeds exactly when every target is known, each endpoint maps into one book and its span is ordered; the inputs are the rendered relationships |
| PipelineLeakage.BuildableExactlyWhen | src/echoes/benchmarks/pipeline.py:543-592 | which relationships those are, of targets, books and packed spans alone |
| PipelineLeakage.PlaceOfPassage | src/echoes/benchmarks/pipeline.py:525-530 | a passage's target coordinate is its book and its place among the extant passages of the book |
| PipelineLeakage.SourceViewIsMeeting | src/echoes/benchmarks/pipeline.py:510-597 | the source view holds together exactly relationships whose reference spans intersect by chapter and verse |
| PipelineLeakage.RangesMeetExactlyWhenShared | src/echoes/benchmarks/pipeline.py:525-592 | two mapped runs have intersecting coordinate ranges if and only if they have a passage in common |
| PipelineLeakage.TargetViewIsSharing | src/echoes/benchmarks/pipeline.py:525-592 | the target view holds together exactly relationships that map to a common passage |
| LeakageSafety.MappedSpanIsRun | src/echoes/benchmarks/mapping.py:159-177 | the span an endpoint maps to is such a run |
| LeakageSafety.BuildLeakage | src/echoes/benchmarks/pipeline.py:1137-1146 | yields leakage rows exactly when every relationship can be rendered and none is repeated, and then rows the theorems below apply to |
| LeakageSafety.SurvivorsAreUnrelated | src/echoes/benchmarks/pipeline.py:838-912 | relationships that survive in different partitions are unrelated by every enforced view |
| LeakageSafety.SurvivorsDoNotMeet | config/benchmark.yaml:96-101 | where `overlapping_endpoint_range` is enforced, the reference spans of survivors in different partitions never intersect |
| LeakageSafety.SurvivorsShareNoTarget | config/benchmark.yaml:96-101 | where `overlapping_target_passage` is enforced, they map to no common passage |
| LeakageSafety.RelatedSharePartition | src/echoes/benchmarks/splits.py:177-254 | under union-find, relationships related by an effective view get one partition |
| LeakageSafety.MeetingSharePartition | src/echoes/benchmarks/splits.py:177-254 | so do relationships whose reference spans intersect |
| LeakageSafety.SharersSharePartition | src/echoes/benchmarks/splits.py:177-254 | and relationships that map to a common passage |
| LeakageSafety.ViewFixedPointsMeetTheReport | src/echoes/benchmarks/leakage.py:105-112 | on the rows of the views the report passes exactly the fixed points of exclusion |
| LeakageViews.TogetherExactlyWhenAgreeing | src/echoes/benchmarks/leakage.py:195-290 | in the fields of the inputs: two relationships share a group of a text-keyed view if and only if they agree in the pair identity, records, provenance, family, endpoint key or target it is named after |
| LeakageViews.TogetherExactlyWhenSameBooks | src/echoes/benchmarks/leakage.py:195-230 | of the book-pair view: the same two books share a group, and only those as long as no book's name holds the separator |
| LeakageViews.SeparatorJoinsPairs | src/echoes/benchmarks/leakage.py:195-230 | two literal pairs that a separator inside a name would bring together |
| LeakageViews.GroupsInConfiguredTerms | src/echoes/benchmarks/pipeline.py:510-597 | end to end, under the configured name of each view: mapped relationships share a leakage group if and only if they agree in its identities, normalized endpoints, mapped passages or repeated records |
| LeakageViews.RowsTogetherExactlyWhenSameBooks | src/echoes/benchmarks/pipeline.py:510-597 | the same of the book-pair view, by the books of the parsed spans |
| LeakageViews.SurvivorsDoNotMatch | config/benchmark.yaml:96-101 | relationships that survive in different partitions agree in nothing an enforced view is named after |
| LeakageViews.MatchingSharePartition | src/echoes/benchmarks/splits.py:177-254 | under union-find, relationships that agree in an effective view get one partition |
| NumberTheory.PredecessorIsCoprime | src/echoes/benchmarks/negatives.py:133-136 | n - 1 is coprime to n, which bounds the step search |
| NumberTheory.StridesDiffer | src/echoes/benchmarks/negatives.py:137 | fewer than n strides of a coprime step never revisit a position |
| Probe.CoprimeStepSearch | src/echoes/benchmarks/negatives.py:133-136 | the search ends with a step below n that is coprime to n |
| Probe.ProbeOrder | src/echoes/benchmarks/negatives.py:117-137 | returns the probe sequence of the next two lemmas |
| Probe.ProbeVisitsDistinctMembers | src/echoes/benchmarks/negatives.py:117-137 | a duplicate-free pool yields exactly min(limit, size) distinct members |
| Negatives.PassageIndexes.constructor | src/echoes/benchmarks/negatives.py:165-186 | the indexes list exactly the passages of each book, genre and length, without repeats |
| Negatives.PoolIsExact | src/echoes/benchmarks/negatives.py:188-217 | every pool is duplicate-free and holds exactly the passages the strategy admits for the anchor |
| Negatives.PoolComesInOrder | src/echoes/benchmarks/negatives.py:175-186 | pools run by identifier, and nearby pools by place in the book and then identifier |
| Negatives.PooledIsValidExactlyWhen | src/echoes/benchmarks/negatives.py:220-257 | a passage of the pool is valid if and only if it is not the anchor, does not overlap it, and forms no known or generated pair with it in either order |
| Negatives.ValidIsAdmitted | src/echoes/benchmarks/negatives.py:220-257 | validity checks the strategy again, except for the other book of a pair |
| Negatives.SidesAlternate | src/echoes/benchmarks/negatives.py:312-317 | the first slot anchors its template's first passage; the next template and the next round anchor the other side |
| Negatives.RowSays | src/echoes/benchmarks/negatives.py:345-376 | a row carries both passages, their sorted corpus, book and genre labels, the difference of their lengths and their partition |
| Negatives.RefusalPersists | src/echoes/benchmarks/negatives.py:220-257 | a candidate once refused stays refused as more pairs are generated |
| Negatives.CoveringExhaustionIsTotal | src/echoes/benchmarks/negatives.py:312-340 | when the attempt limit covers the pool, an exhausted slot means that no passage the strategy admits is valid for the anchor |
| Negatives.FindCandidate | src/echoes/benchmarks/negatives.py:312-340 | returns the passage at the first valid position of the probe order, or reports that every probed one is refused |
| NegativeGeneration.RoundsSupplyEnoughSlots | src/echoes/benchmarks/negatives.py:301-311 | the rounds always supply at least the requested number of slots |
| NegativeGeneration.CountsRoundUp | src/echoes/benchmarks/negatives.py:301-307 | there is one round more than the ratio rounded up, and as many rows are requested as the ratio of the templates rounded up |
| NegativeGeneration.FillSlots | src/echoes/benchmarks/negatives.py:305-376 | the rows are those of running through rounds and templates slot by slot, each adding the first valid passage of its probe; falling short means some slot had all probes refused |
| NegativeGeneration.CollectTemplates | src/echoes/benchmarks/negatives.py:291-299 | succeeds exactly when every template is placed; otherwise raises what the first misplaced one calls for, an unknown passage or else two partitions |
| NegativeGeneration.GeneratePresumedNegatives | src/echoes/benchmarks/negatives.py:260-383 | exactly the outcome of a function of the passages, positives and graph; each error exactly under its condition, a shortfall with the rows it produced and a slot whose whole probe they refuse; otherwise exactly the requested count of distinct, absent, same-partition, non-overlapping pairs meeting the strategy |
| NegativeGeneration.InputOrderDoesNotMatter | src/echoes/benchmarks/negatives.py:276-300 | that outcome, rows or error, is the same however passages and positives are ordered |
| NegativeTemplates.LocatedExactlyWhen | src/echoes/benchmarks/pipeline.py:987-1004 | the passages offered to the generator are exactly the edition-complete targets, numbered from one within each stream |
| NegativeTemplates.SelectTemplates | src/echoes/benchmarks/pipeline.py:942-985 | fails exactly on a relationship without two endpoints or with an unknown target; otherwise the templates are those of the selected relationships in order, and the graph is exactly the mapped pairs of all relationships |
| NegativeTemplates.SelectedExactly | src/echoes/benchmarks/pipeline.py:942-985 | a template stands for exactly the relationships that map to two single, different passages, both drawn for the partition the relationship is held out in |
| NegativeTemplates.SelectionPassesGuards | src/echoes/benchmarks/pipeline.py:920-1028 | with unique passage identifiers the generator's guards pass on the pipeline's inputs |
| NegativeTemplates.GenerateNegatives | src/echoes/benchmarks/pipeline.py:920-1028 | the rows are one whole generation per enabled definition over the selected templates and the whole graph, in order; the unknown-passage, cross-partition and missing-from-graph errors cannot occur |
| NegativeTemplates.GenerationsAvoidGraph | src/echoes/benchmarks/pipeline.py:942-985 | no generated pair is a mapped pair of any relationship, selected or not |
| ReferenceGrammar.ParsesExactlyWhen | src/echoes/benchmarks/references.py:301-410 | a reference is accepted if and only if it is a written point within its bound, or two in one book within their bounds that run forward, and the span is what it says; whether the bounds were known is recorded |
| ReferenceGrammar.FailsExactlyWhen | src/echoes/benchmarks/references.py:240-410 | every other reference is refused with the status that its first fault calls for, each status exactly under its condition on the text, the registry and the bounds |
| ReferenceGrammar.PrintedPointParses | src/echoes/benchmarks/references.py:350-357 | a governed point, printed, is accepted as a single verse if and only if no bound of its chapter is below it |
| ReferenceGrammar.PrintedRangeOutcome | src/echoes/benchmarks/references.py:386-410 | two governed points, printed as a range, are accepted if and only if they lie in one book, within bounds and forward; otherwise book, bound, extent and direction are faulted in that order |
| References.NormalizedReadsBack | src/echoes/benchmarks/references.py:231-235 | parsing a span's normalized form gives the same start, end and range flag |
| References.PrintedRangeParses | src/echoes/benchmarks/references.py:320-410 | two governed points, printed as a range, are read as that range |
| References.NormalizationIsIdempotent | src/echoes/benchmarks/references.py:231-235 | normalizing twice is normalizing once |
| References.NormalizedFormDetermines | src/echoes/benchmarks/references.py:231-235 | equal normalized forms mean equal spans |
| References.ShortFormsMeanFullForm | src/echoes/benchmarks/references.py:363-385 | verse-only and chapter-and-verse ends have the outcome of the full form, span or classified failure |
| Coordinates.IncreasingIsDetermined | src/echoes/benchmarks/references.py:446-474 | a strictly increasing listing is determined by its members |
| Coordinates.ExpandCanonicalReferences | src/echoes/benchmarks/references.py:446-474 | succeeds exactly when every chapter of the span is bounded and admits its verses, and fails with the status the first refused chapter calls for; lists, strictly increasing and without a gap, every existing coordinate of the span |
| Mapping.BisectLeft | src/echoes/benchmarks/mapping.py:175 | everything before the result is below the key, nothing after it is |
| Mapping.BisectRight | src/echoes/benchmarks/mapping.py:176 | everything before the result is at most the key, nothing after it is |
| Mapping.SliceIsFilter | src/echoes/benchmarks/mapping.py:159-177 | the slice between both searches is the ordered filter of the stream |
| Mapping.PassageReferenceIndex.Load | src/echoes/benchmarks/mapping.py:73-101 | refuses exactly repeated coordinates in a stream, else every stream is sorted beside its coordinates |
| Mapping.PassageReferenceIndex.Span | src/echoes/benchmarks/mapping.py:159-177 | equals the naive filter between start and end |
| MappingDecision.MappingForProfile | src/echoes/benchmarks/mapping.py:233-312 | the status and targets are those of the decision the lemmas below speak of |
| MappingStatuses.SpanLists | src/echoes/benchmarks/mapping.py:159-177 | the targets are, in order, exactly the loaded verses of the profile's stream between start and end |
| MappingStatuses.UnmappedExactlyWhen | src/echoes/benchmarks/mapping.py:283-310 | excluded by profile, missing or mapped exactly as the profile and the edition carry verses between start and end |
| MappingStatuses.SingleVerseIsProvisionalExactlyWhen | src/echoes/benchmarks/mapping.py:202-216 | a single verse is provisional if and only if the profile carries it and the edition flags no gap there, and partial if and only if it is carried with one |
| MappingStatuses.RangeIsProvisionalExactlyWhen | src/echoes/benchmarks/mapping.py:192-230 | a range is provisional if and only if the profile carries both ends, profile and edition carry the same labels in order, and the edition has neither a flagged gap nor one between neighbouring verses; else partial |
| MappingStatuses.LoadedRangeIsProvisionalExactlyWhen | src/echoes/benchmarks/mapping.py:103-230 | over every loaded index, the same with the labels replaced by the verses themselves |
| MappingDecision.SpanIsCarriedExpansion | src/echoes/benchmarks/mapping.py:159-177 | with verses inside the bounds, the span is exactly the part of the expansion the index carries |
| MappingDecision.ProvisionalEditionIsEveryVerse | src/echoes/benchmarks/mapping.py:283-310 | for the edition, a provisional same-chapter range maps to every verse in order |
| MappingDecision.ProvisionalIsEveryVerseExactlyWhen | src/echoes/benchmarks/mapping.py:283-310 | for any profile it does if and only if the edition carries as many verses as the range spans |
| MappingDecision.ProvisionalIsEveryVerse | src/echoes/benchmarks/mapping.py:202-230 | when labels determine coordinates it always does |
| MappingDecision.ProvisionalMayMissAVerse | src/echoes/benchmarks/mapping.py:202-230 | literal targets, whose labels do not determine coordinates, on which it does not |
| MappingDecision.CriticalImpliesEdition | src/echoes/benchmarks/mapping.py:283-310 | with the core contained in the edition, a provisional core decision implies a provisional edition decision with the same references |
| MappingDecision.CoreMappingImpliesEditionMapping | src/echoes/benchmarks/mapping.py:233-311 | the same over a loaded index, for every endpoint |
| PassageLoading.FromRows | src/echoes/benchmarks/mapping.py:103-157 | the loader stops at the first unreadable label, on no targets or on a repeated coordinate; otherwise the index holds a target per row, each at the coordinate its label names |
| PassageLoading.LabelReadsExactlyWhen | src/echoes/benchmarks/mapping.py:125-147 | a label reads as chapter and verse if and only if it is a book, a space, and two numerals around a colon |
| PassageLoading.LoadedLabelsDetermine | src/echoes/benchmarks/mapping.py:103-157 | in every index it builds labels determine coordinates |
| PassageLoading.LoadedProvisionalIsEveryVerse | src/echoes/benchmarks/mapping.py:202-310 | so over it every provisional same-chapter range, of every profile, is every verse in order |
| RankingMetrics.RecallIsMonotone | src/echoes/benchmarks/metrics.py:115-123 | recall never decreases with the cutoff |
| RankingMetrics.RecallAndPrecisionAgree | src/echoes/benchmarks/metrics.py:115-132 | recall times the relevant count is precision times the cutoff |
| RankingMetrics.GainAtMostIdeal | src/echoes/benchmarks/metrics.py:144-158 | h hits gain at most what h leading hits gain, and as much only when they lead |
| RankingMetrics.NdcgIsBounded | src/echoes/benchmarks/metrics.py:144-158 | nDCG lies in [0, 1] |
| RankingMetrics.NdcgIsOneExactlyWhenLeading | src/echoes/benchmarks/metrics.py:144-158 | it is one if and only if something is relevant and the first min(relevant, k) ranks are |
| RankingMetrics.NothingRelevantScoresZero | src/echoes/benchmarks/metrics.py:144-158 | a literal query without relevant passages that leads with all of them and scores zero |
| RankingMetrics.PromotionNeverHurts | src/echoes/benchmarks/metrics.py:144-158 | moving a relevant passage up never lowers nDCG and raises it inside the cutoff |
| StratifiedMetrics.ReciprocalRank | src/echoes/benchmarks/metrics.py:135-141 | the reciprocal of the first relevant rank, zero without one |
| StratifiedMetrics.Eligible | src/echoes/benchmarks/metrics.py:161-175 | keeps eligible queries in order and counts exclusions by reason |
| StratifiedMetrics.QueryTakesPartExactlyWhen | src/echoes/benchmarks/metrics.py:161-175 | a query takes part in a mean if and only if it states no reason against it and has a relevant passage |
| StratifiedMetrics.ReasonsAreCounted | src/echoes/benchmarks/metrics.py:161-175 | each reason is counted once for every query left out for it, missing relevance included |
| StratifiedMetrics.MeanMetric | src/echoes/benchmarks/metrics.py:207-228 | the mean over eligible queries with its counts, zero when there are none |
| StratifiedMetrics.EvaluateByStratum | src/echoes/benchmarks/metrics.py:352-374 | one result per stratum value, in sorted order, each of that stratum's members |
| StratifiedMetrics.StrataAddUp | src/echoes/benchmarks/metrics.py:352-374 | totals, counts and exclusion reasons of the strata add up to the global ones |
| StratifiedMetrics.StratifiedMeansRecombine | src/echoes/benchmarks/metrics.py:207-228 | means weighted by eligible counts give back the global mean |
| ReproductionCommands.CheckBounded | src/echoes/manifest.py:230-258 | the index loop accepts exactly the commands of the recursive grammar |
| ReproductionCommands.BoundedExactlyWhen | src/echoes/manifest.py:230-258 | the grammar is exactly: the prefix, both options with plain values in either order, and at most one `--force` anywhere between arguments |
| ReproductionCommands.ValidatedCommandNamesEachOption | src/echoes/manifest.py:1315-1322 | in a validated command a required option stands exactly once and the lookup returns its nonempty value |
| ExecutionPaths.ConfinedExactlyWhen | src/echoes/manifest.py:43-58 | a path that Windows does not claim is confined if and only if walking it from any place keeps every component of both: nothing is climbed, skipped or empty |
| ExecutionPaths.ConfinedStaysBelow | src/echoes/manifest.py:43-58 | at no point of the walk is the root left |
| ExecutionPaths.RecordFileIsConfined | src/echoes/manifest.py:488-504 | the file of a record with safe identifiers lies two levels below the manifest root |
| ExecutionPaths.FilesTellRecordsApart | src/echoes/manifest.py:488-504 | two records never share a file |
| ExecutionPaths.DigestExactlyWhenHex | src/echoes/manifest.py:28-28 | a text passes for a digest if and only if it is the lower-case hexadecimal text of 32 bytes |
| ExecutionTheorems.BeginKeepsInv | src/echoes/manifest.py:585-737 | a started recorder has a valid running record at its own path |
| ExecutionTheorems.StepKeepsInv | src/echoes/manifest.py:739-947 | any call, completed or rejected, with any write or unlink failing, keeps every record valid and in its place |
| ExecutionTheorems.CallAcceptedExactlyWhen | src/echoes/manifest.py:739-947 | a live recorder's call completes if and only if its arguments, the files and the record as it stands pass and nothing it writes or removes fails |
| ExecutionTheorems.EveryRecordIsValid | src/echoes/manifest.py:259-335 | over every run each persisted record meets its validators and its configuration digest is that of its hashes |
| ExecutionTheorems.EveryRecordSays | src/echoes/manifest.py:213-277 | over every run each record lies where its identifiers say, hashes each configured file and each output table both ways, is complete unless running, and has errors exactly when failed |
| ExecutionTheorems.SuccessSays | src/echoes/manifest.py:277-335 | over every run a succeeded record names its run, seeds, versions, sources, configuration, inputs and outputs, and every digest it carries is one |
| ExecutionTheorems.LineageSays | src/echoes/manifest.py:107-160 | over every run a record names a staging directory exactly when resume was asked for, holds digests exactly once reuse happened, and then of at least one artifact part, all under confined paths |
| ExecutionTheorems.StatusMovesOnce | src/echoes/manifest.py:739-741 | a finalized recorder never changes its record or path again |
| ExecutionFinality.FailedRecordsAreFinal | src/echoes/manifest.py:1041-1092 | over every run, with recoveries of any record, a failed record stays on disk unchanged |
| ExecutionFinality.SucceededIsLostExactlyWhen | src/echoes/manifest.py:743-745 | a succeeded record is lost in a step if and only if a recorder still live behind it makes a call, other than success, whose arguments, new record and target path pass and whose write and unlink do not fail |
| ExecutionFinality.MemoryIsOnDisk | src/echoes/manifest.py:743-745 | while no recovery hits the live recorder's own file, that file is the record in memory, over every run |
| ExecutionFinality.FinalRecordsStay | src/echoes/manifest.py:1041-1092 | over such runs a record that has succeeded or failed stays to the end, unchanged in every field |
| ExecutionFinality.SucceededRecordsAreFinal | src/echoes/manifest.py:739-947 | in particular over every run without recoveries a succeeded record stays a succeeded one |
| ExecutionTheorems.FilesAreCounted | src/echoes/manifest.py:776-810 | an execution gains one file for every failed removal and by nothing else, over every run |
| ExecutionTheorems.OneFileExactlyWhenNoStray | src/echoes/manifest.py:776-810 | its one file is the one at its run and execution path if and only if no removal failed |
| ExecutionLineage.LineageOnlyGrows | src/echoes/manifest.py:812-898 | no recorded resume digest is ever changed or dropped, over every run |
| ExecutionLineage.UpdateGrows | src/echoes/manifest.py:840-874 | an accepted update keeps every old digest, holds every new one, and changes something |
| ExecutionLineage.UpdateAcceptedExactlyWhen | src/echoes/manifest.py:821-882 | exactly which updates are accepted: well-formed, requested, without conflict, with news, leaving an artifact part |
| ExecutionLineage.RejectedCallsChangeNothing | src/echoes/manifest.py:739-947 | a call that raises leaves the state untouched, except for the file a failed removal leaves |
| ExecutionLineage.NoticeIsStatedOnce | src/echoes/manifest.py:883-898 | from a record that states it rightly, the composite notice stands exactly once from the first accepted update on and not before, over every run |
| ExecutionLineage.BeginStatesNotice | src/echoes/manifest.py:585-737 | a fresh record states it rightly, unless the notices found at the start already read like it |
| ExecutionLineage.NoticeFollowsReuse | src/echoes/manifest.py:585-898 | so it does over every run of an execution from its start |
| ExecutionProvenance.SuccessWasBound | src/echoes/manifest.py:277-298 | a run from the start that ends in success completed a configuration, a run, outputs and, if resume was asked for, a lineage update |
| ExecutionProvenance.LastRunSurvives | src/echoes/manifest.py:776-810 | over every run the record's run, inputs and split lineage are those of the last completed `bind_run` |
| ExecutionProvenance.LastOutputsSurvive | src/echoes/manifest.py:900-915 | its outputs are those of the last completed `bind_outputs` |
| ExecutionProvenance.LastSeedsSurvive | src/echoes/manifest.py:747-774 | its seeds are those of the last completed `bind_configuration` |
| ExecutionProvenance.ConfigurationHashesAccumulate | src/echoes/manifest.py:747-774 | no configuration hash is ever dropped, and each is the one its name was last bound to |
| ExecutionProvenance.VersionsAccumulate | src/echoes/manifest.py:747-810 | every dataset's version is the one it was last bound to, a configuration binding all of them anew |
| ExecutionProvenance.EndingIsRecorded | src/echoes/manifest.py:917-947 | over every run, status, completion time, runtime and errors are those of the one call that ended it: the time given, the elapsed time or zero, and a failure's message up to 4000 characters |
| ExecutionProvenance.NoticesSurvive | src/echoes/manifest.py:739-947 | every warning but the pending notice, and every limitation, stays to the end, in order and in front of later ones |
| ExecutionProvenance.ContextNeverChanges | src/echoes/manifest.py:585-737 | the context captured at the start is that of the final record |
| ExecutionProvenance.RecoveryHasNoErrorsToPreserve | src/echoes/manifest.py:1061-1074 | the branch that preserves earlier errors adds nothing |
| ExecutionProvenance.RecoverySays | src/echoes/manifest.py:1065-1090 | a recovery ends the record at its time, never shortens its runtime, adds one warning and one limitation, and touches no other record or field |
| ExecutionExamples.FailedUnlinkLeavesTwoFiles | src/echoes/manifest.py:804-808 | a concrete run with two files |
| ExecutionExamples.RecoveredRecordIsOverwritten | src/echoes/manifest.py:1041-1092 | a concrete run in which a recovered success becomes a failure |
| ExecutionRecorders.ManifestStore.Write | src/echoes/manifest.py:507-540 | replaces the file or changes nothing, and leaves no temporary file, whichever operation fails |
| ExecutionRecorders.ManifestStore.FinalizeRecovered | src/echoes/manifest.py:1041-1092 | the recovery step of the state machine |
| ExecutionRecorders.ValidatedInventory | src/echoes/manifest.py:61-68 | returns the inventory itself exactly when every path is confined and every digest well-formed |
| ExecutionRecorders.MergeInventory | src/echoes/manifest.py:840-855 | refuses exactly a changed digest, else returns the union and whether it has news |
| ExecutionRecorders.UpdatedLineage | src/echoes/manifest.py:812-882 | the lineage update of the state machine |
| ExecutionRecorders.ExecutionRecorder.Begin | src/echoes/manifest.py:585-737 | the start of the state machine |
| ExecutionRecorders.ExecutionRecorder.BindConfiguration | src/echoes/manifest.py:747-774 | its step, with the state after and whether it raised |
| ExecutionRecorders.ExecutionRecorder.BindRun | src/echoes/manifest.py:776-810 | its step, including the state a failed unlink leaves |
| ExecutionRecorders.ExecutionRecorder.BindResumeLineage | src/echoes/manifest.py:812-898 | its step |
| ExecutionRecorders.ExecutionRecorder.BindOutputs | src/echoes/manifest.py:900-915 | its step |
| ExecutionRecorders.ExecutionRecorder.FinalizeSuccess | src/echoes/manifest.py:917-934 | its step |
| ExecutionRecorders.ExecutionRecorder.FinalizeFailure | src/echoes/manifest.py:936-947 | its step |
| Acquisition.Volume.Promote | src/echoes/acquire/sources.py:88-99 | the retry loop renames, stops or raises as the first undeniable answer of ten says |
| Acquisition.RetrySucceedsExactlyWhen | src/echoes/acquire/sources.py:88-99 | it succeeds if and only if one of ten attempts does with only denials before it |
| Acquisition.CompleteTreeHolds | src/echoes/acquire/sources.py:707-720 | a fetched tree holds every declared file and nothing else |
| Acquisition.Stage | src/echoes/acquire/sources.py:884-917 | the target is untouched throughout, and staging ends complete exactly when nothing failed |
| Acquisition.Publish | src/echoes/acquire/sources.py:919-931 | the exact disk after every outcome of backup, rename, restore and removal, every disk on the way being safe |
| Acquisition.CleanUp | src/echoes/acquire/sources.py:932-937 | never turns an error into a return, restores the old tree whenever it can and never over a new one |
| Acquisition.AcquireSource | src/echoes/acquire/sources.py:857-938 | at every intermediate disk the old tree is intact at target or backup or the complete new one at the target; returns exactly when all went well; and, when it raises, which tree stands at the target |
| KetivQere.PairedExactlyWhen | src/echoes/corpus/analysis.py:38-49 | a group is a complete pair exactly when its readings are Qere and Ketiv and nothing else |
| KetivQere.EachTokenIsPlaced | src/echoes/corpus/analysis.py:50-52 | a token of a complete pair is kept for exactly one reading, any other for both, without any consistency assumption |
| KetivQere.StreamsPartitionPairs | src/echoes/corpus/analysis.py:50-54 | the same with multiplicity, on the derived streams |
| KetivQere.StreamTakesItsReading | src/echoes/corpus/analysis.py:38-54 | the stream of a reading drops exactly the other reading of groups that have both and nothing else, and holds every other token as often as the corpus |
| KetivQere.RowsCarryTheirReading | src/echoes/corpus/analysis.py:50-79 | so no derived row of such a group carries the other reading |
| KetivQere.StreamSizesAddUp | src/echoes/corpus/analysis.py:50-54 | the stream sizes sum to all tokens plus the tokens outside complete pairs |
| KetivQere.PositionsAreContiguous | src/echoes/corpus/analysis.py:54-67 | rows carry their tokens in source order, and corpus, verse and clause positions each run from one without a gap |
| KetivQere.PositionsCountEarlierTokens | src/echoes/corpus/analysis.py:54-67 | each position is one more than the earlier tokens of the same book, chapter and verse, of the same clause, or of the stream |
| KetivQere.InputOrderDoesNotMatter | src/echoes/corpus/analysis.py:25-79 | with distinct source positions the result does not depend on row order |
| WeightedCycles.DealIsWeighted | src/echoes/benchmarks/positive_controls.py:356-379 | every group gets a partition, and each partition exactly its weight per full round and its part of the last |
| WeightedCycles.FullRoundPopulates | src/echoes/benchmarks/positive_controls.py:191-196 | with a full cycle of groups every partition has one |
| PositiveControls.ValidateRows | src/echoes/benchmarks/positive_controls.py:412-530 | the counts, the dictionaries filled row by row and the comparison with the deal accept exactly the tables a specification by pairs of rows describes |
| PositiveControls.SingleExactlyWhenFunctional | src/echoes/benchmarks/positive_controls.py:486-505 | the filed sets all have one element if and only if no key has two values |
| PositiveControls.ChainsStayTogether | src/echoes/benchmarks/positive_controls.py:486-522 | accepted rows related by any chain of families, references and groups share leakage group and partition |
| PositiveControls.FrozenGroupsArePopulated | src/echoes/benchmarks/positive_controls.py:511-524 | the check for an unpopulated partition cannot fail once the splits are as dealt |
| ByteLines.CountersCountBreaks | src/echoes/benchmarks/openbible.py:118-134 | the three byte counts count the breaks of each kind |
| ByteLines.NewlineNamesBreaks | src/echoes/benchmarks/openbible.py:122-132 | the name is mixed if and only if two kinds of break occur, and otherwise names every break |
| ByteLines.NothingIsLost | src/echoes/benchmarks/openbible.py:134 | lines and their breaks, interleaved, are the file |
| ByteLines.LinesDetermineFile | src/echoes/benchmarks/openbible.py:118-134 | unless mixed, lines, newline name and final-newline flag give back every byte |
| CanonicalStreams.FramingReadsBack | src/echoes/benchmarks/openbible.py:108-115 | an independent reader recovers the payloads of a framed stream |
| CanonicalStreams.ReadingFramesBack | src/echoes/benchmarks/openbible.py:108-115 | what the reader accepts is exactly a framed stream |
| CanonicalStreams.FramingIsInjective | src/echoes/benchmarks/openbible.py:108-115 | different payload lists never share a stream |
| CanonicalStreams.HashStream | src/echoes/benchmarks/openbible.py:108-115 | the running digest is the digest of the framed stream; an oversized payload is an error |
| OpenBibleSources.ParseSource | src/echoes/benchmarks/openbible.py:246-305 | fails exactly on files that are no table, else returns the records, issues and digest the lemmas below speak of |
| OpenBibleSources.TableExactlyWhen | src/echoes/benchmarks/openbible.py:255-285 | a file is a table if and only if it is text without a byte-order mark whose first line names the four columns |
| OpenBibleSources.EveryRowIsAccounted | src/echoes/benchmarks/openbible.py:287-294 | one record per physical row, in order, with its bytes; parsed if and only if no error issue names its line |
| OpenBibleSources.ParsedExactlyWhen | src/echoes/benchmarks/openbible.py:141-243 | a row is parsed if and only if it is two references and an integer; readable fields are kept whatever is wrong with them |
| OpenBibleSources.StatusExactlyWhen | src/echoes/benchmarks/openbible.py:141-225 | each status exactly under its condition on the row: blank, columns, encoding, weight, empty reference, syntax |
| OpenBibleSources.ReadableRowRaises | src/echoes/benchmarks/openbible.py:180-228 | each issue of a readable row exactly under its condition; a negative weight is informational |
| OpenBibleSources.UnreadableRowRaises | src/echoes/benchmarks/openbible.py:151-180 | one error for any other row, and the fields read before the first that could not be |
| OpenBibleSources.SameDigestSameRows | src/echoes/benchmarks/openbible.py:92-115 | with collision-free digest and encoding, equal stream digests mean equal rows |
| OpenBibleSources.DigestIdentifiesFile | src/echoes/benchmarks/openbible.py:246-315 | with the newline's name and the final-newline flag the digest identifies the file byte for byte, unless mixed |

## Left out

- SHA-256, JSON canonicalisation, UTF-8 decoding, the reference pattern of the OpenBible table and `int()` on its
  votes: parameters, injective only where a law says so.
- DuckDB, Polars and Parquet mechanics: the exclusion pass and the Ketiv and Qere streams are functions on sequences.
- KetivQere.Derive: ties in source position are broken by input order, where the program's sort leaves them open.
- The alias registry and the verse bounds: parameters of the parser and the expander, which are proved for any registry
  that maps aliases to chapter counts; expansion yields chapter and verse numbers, not label text.
- Decimal numerals beyond Python's conversion limit of 4300 digits.
- The heap's array layout: the queue is an ordered list, so only its contents and minimum are modelled.
- LeakageGroups.LeakageGroupRows: the rows as a set, not their order; the group method is a function of the group type
  and a place stands for its text `book|ordinal`, both inside the digest that is a parameter.
- PassageLoading.FromRows: `int` is a parameter on numerals that are not negative, its own error is that of an
  unreadable label, and the JSON list of disputed passages is not read.
- PipelineLeakage.BuildInputs: the two endpoints and spans of each relationship arrive paired, so the count of
  endpoints is not checked again.
- `_records_relationships_endpoints` and the mapping risks and confidence texts: bookkeeping.
- `evaluate_metrics`' fixed list of metrics: one metric is a parameter of the stratified evaluation.
- Floating-point rounding in proportions, ratios and logarithms.
- PositiveControls.ValidateRows: reports acceptance, not which message is raised first; the checks on one row alone are
  one predicate.
- ExecutionRecorders.ExecutionRecorder.Begin: file inspection before the first record is a parameter, and descriptive
  fields that no branch reads (Git state text, hardware, stage runtimes) are not carried.
- Concurrent writers inside one call, symlink and path-escape checks, directory creation and the clock of the recorder.
- Acquisition.AcquireSource: approval, download, checksum and ZIP checks are a fetch that succeeds or fails; the
  sparse Git checkout directory beside the staging tree is not modelled; the random names are taken to be fresh.
- Everything under `echoes.final_discovery`, `echoes.lexical` and `echoes.segment`, the command line, the settings
  schema and the reports.
