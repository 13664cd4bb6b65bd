# Gesetzeswache in Dafny

Gesetzeswache follows the German federal gazette (Bundesgesetzblatt, BGBl) and tells for each law
whether the consolidated text it serves is still current. Its answer fails closed:
`confirmed_current` is given only on proof. This project models that decision and the parts of the
program it rests on, and proves what they promise.

The parts, one module per file:

- **The verdict.** `Citation` (order of BGBl citations), `Freshness` (the evaluator and its
  diagnostics), `Chain` (past, current and future ordinances), `VRefs` (matching citations to children,
  the child proof, supersession), `Verdict` (evidence, leaf evaluation, the whole pipeline),
  `VerdictSoundness` (what a `confirmed_current` proves) and `EndToEnd` (the served record on the stamps
  of any job runs). `StandOrder`, `EvidenceExact` and `ResolutionExact` tell the same answers once more on
  fields, rows and store alone, with definitions of their own, and prove the two accounts equal.
- **What feeds it.** `SyncJobs` (job runs as steps on the success stamps), `Linked`, `Families` and
  `Assembly` (the linked ordinances of a law), `Store` and `Ingest` (discovered edges).
- **Search.** `Levenshtein` (the fuzzy kernel), `SGB` and `SearchIndex` (books of the
  Sozialgesetzbuch and the resolver).
- **Export.** `UnitBuilder` (XML events to text units), `UnitTrees` (the same told on element trees),
  `Layout` and `Compose` (callouts in the parent text), `Callouts` (the same told on lines and hints), `IndexChunks` (unique ids), `IRCache`, `Bundle`.
- **Small stateful parts.** `Throttle` (per-host grants) and `LabelKeys` (metric series).
- `Text`, `Words` and `Domain` hold string helpers and the shared entities.

Code that the source writes as loops over slices, maps and buffers is a method or a class method with
invariants, proved against a function or predicate; the laws are lemmas about that specification. Map
iteration is a nondeterministic choice of the next key, so what is proved holds for every order.

Conventions. An instant is a number of nanoseconds since Go's zero time, so zero is `IsZero()`;
durations saturate and wrap like 64-bit `time.Duration`. Scores are reals. A store is a map per bucket
and a transaction is one step. A citation parser, the normalizer `normalize.Key`, the similarity score
inside the resolver, unit classification and hashing are function parameters: each result names the few
facts it needs of them (parsed refs have Teil 1 or 2 and a canonical kind; normalizing twice is
normalizing once and leaves no bar; the name of a book does not normalize to nothing). Linked rows carry
a slug, which the TSV loaders, the family expansion and the ingest enforce.

Where a promise does not hold of the code, the code is kept, a concrete case is given and the exact
condition is proved:

- A stored issue that the Stand itself names can count as newer, when its number is written with zeros
  only or, beyond 18 digits, wraps to no positive value (`Freshness.NamedStoredIssueIsNewerIff`, `Freshness.NamedShortNumberIsNewerIff`,
  `Freshness.NamedIssueCanBeNewer`). A Stand that cites by page names no issue number, and issues of its
  Teil and year are judged by date (`Freshness.PageStandDecidesByDate`).
- A feed error blocks `confirmed_current` only if its mark reaches the store and is later than the last
  success stamp (`SyncJobs.MarkEffectiveIff`, `SyncJobs.ClockJumpKeepsEvidence`,
  `SyncJobs.RefusedMarkKeepsEvidence`).
- The block after a feed error does not always last until the next successful feed run: a complete run
  whose clear is stored and whose stamp is refused counts as failed, yet it ends the block and the old
  stamp is evidence again (`SyncJobs.ClearWithoutStampRevives`, `SyncJobs.BlockUntilSuccess`,
  `SyncJobs.NoConfirmedUntilSuccess`).
- A label value holding a bar breaks the label codec (`LabelKeys.RoundTripIff`,
  `LabelKeys.SharedWithSeparator`, `LabelKeys.SharesIff`), and ids holding one could share cache entries
  (`IRCache.KeysCollideIff`).
- A paragraph does not keep everything inside it when paragraphs nest: after an inner one is closed the rest
  counts as stray text (`UnitTrees.NestedParagraphTail`). `UnitTrees.DocumentText` says exactly what any
  document keeps, `UnitTrees.OrderlyDocument` when the ancestors alone decide.
- The second title fallback of the ingest, meant for references without a parent phrase, never yields an
  edge (`Ingest.TitleFallbackIdle`).

The bundle function called without members would answer that serving is safe
(`Bundle.AggregateBundleFreshness`); the program always hands it a parent
(`internal/service/bundle.go:241`), so this is a fact about the function alone.

`dafny verify dfyconfig.toml` checks the whole project.

## Model

| member | source | states |
|---|---|---|
| `ResolutionExact.ParentCurrentIff` | internal/service/service.go:164-277 | For every store, catalog rows and verdicts on the children, an if and only if told on store, rows and citations alone: a parent evaluates confirmed_current exactly when edges and links were read, sync is fresh and complete, its Stand is parsed, no issue looked at is newer, and every open citation is settled - by the one row it means whose child is confirmed, by history alone if it is no ordinance, or by a proven row in its place if it is one |
| `ResolutionExact.OutcomeExact` | internal/instruments/vref_proof.go:28-131 | Resolving, proving and superseding together accept a citation exactly when it is settled in that sense; both directions |
| `ResolutionExact.ResolveExact` | internal/instruments/vref_resolve.go:36-112 | A citation gets the slug of the row it means: the only row in force it names, or the only one of them in its section, or, when it names none, the first the BGBl index points to. It gets none exactly when there is no such row, and is history exactly when it is no ordinance, names and points to no row in force, and names a past one |
| `ResolutionExact.AmbiguousIsUnmatched` | internal/instruments/vref_resolve.go:72-90 | If a citation names several rows in force and not exactly one of them stands in its section, none is taken and history is not asked |
| `ResolutionExact.SoleRowIsMatched` | internal/instruments/vref_resolve.go:72-90 | The only row named, or the only named one in the section of the citation, is taken |
| `ResolutionExact.UndecidedBlocks` | internal/instruments/vref_resolve.go:79-90 | Ambiguity fails closed: such an open citation keeps the parent from confirmed_current whatever its children are worth, unless it is an ordinance that has been succeeded |
| `ResolutionExact.SuccessorExact` | internal/instruments/vref_proof.go:80-125 | A past ordinance is superseded exactly when some row in force, of a slug that an open citation proves, stands in the section of the citation, or else in the one section of all past rows it names |
| `ResolutionExact.MethodTells` | internal/instruments/vref_resolve.go:70-108 | The recorded method says how a match came about: notes_identity exactly when a row was picked or history applies, bgbl_index exactly when the index was asked and pointed to a row in force |
| `ResolutionExact.SuccessorNamed` | internal/instruments/vref_proof.go:100-127 | The successor recorded for a superseded ordinance is the first row that may succeed it |
| `ResolutionExact.LeafCurrentIff` | internal/instruments/vref_proof.go:134-180 | A child is confirmed exactly on a law id of its own, fresh and complete sync, a parsed Stand, no newer issue among those looked at and nothing left open by its Stand |
| `EvidenceExact.RefsExact` | internal/instruments/evidence.go:20-56 | The citations taken into account are mentioned in the Stand, the editorial notes, a linked row or the Stand stored for it; and every citation mentioned there is among them or repeats one that is |
| `EvidenceExact.CitedExact` | internal/instruments/evidence.go:37-55 | The cited issues are exactly the stored ones under the ids the citations with year and number spell |
| `EvidenceExact.LinkedExact` | internal/service/service.go:178-190 | The linked issues are exactly the stored ones behind the links of the law |
| `VerdictSoundness.ConfirmedCurrentIsProven` | internal/instruments/vref_proof.go:50-199 | For every store, catalog row list and children's verdicts: a parent that evaluates confirmed_current has fresh TOC, GII and non-probe BGBl sync, readable links, a parsed Stand and no counted issue newer than it, and every operative ref the Stand does not reflect finds its own resolution and is accounted for by (a) a current or undated child that is itself confirmed current, (b) for non-V refs, a past child and no current one, or (c) for V refs, a past child and a confirmed current sibling in the required section |
| `VerdictSoundness.ProvenMeaning` | internal/instruments/vref_proof.go:52-131 | Resolution, child proof and supersession together mark a ref as proven only in one of the three ways (a), (b), (c), stated on the children and not on the proof list |
| `VerdictSoundness.OwnResolution` | internal/freshness/eval.go:345-370 | On refs that are pairwise different, looking a ref up in the proof list finds the entry made for that very ref, never a neighbour's |
| `VerdictSoundness.EvidenceRefsDistinct` | internal/instruments/evidence.go:20-78 | Deduplicated evidence refs are canonical, and two of them that the evaluator would identify are one ref |
| `VerdictSoundness.DedupeKeyInjective` | internal/instruments/evidence.go:66-78 | The printed dedupe key separates refs whose kind holds no bar |
| `VerdictSoundness.LeafConfirmedMeaning` | internal/instruments/vref_proof.go:134-180 | A child counts as confirmed only with a law id of its own, on the same sync evidence, with a parsed Stand, no counted newer issue and no operative ref left open by its Stand |
| `VerdictSoundness.MoreConfirmedChildren` | internal/instruments/vref_proof.go:28-131 | If more children evaluate confirmed_current and all else is fixed, no ref becomes blocking and the parent never drops from confirmed_current |
| `VerdictSoundness.ProofMonotone` | internal/instruments/vref_proof.go:28-131 | The proof list is monotone entry by entry in the set of confirmed children, supersession included, with matches unchanged |
| `Verdict.EvaluateLaw` | internal/service/service.go:164-277 | The evaluation part of freshnessFor and of Reconcile returns exactly the verdict on the input its stages determine, with each child judged as a leaf; a failed edge or link read reaches both parent and children |
| `EndToEnd.ServedConfirmedIsProven` | internal/service/service.go:164-277 | The record of that evaluation on the stamps any job runs left: confirmed_current only if complete TOC, GII and BGBl runs lie within the maximum age, links and edges were read, the Stand is parsed with no counted newer issue, and every open operative ref is settled by a child whose own Stand settles everything, by the past chain, or by such a child as successor |
| `EndToEnd.ServedNeedsCompleteRuns` | internal/service/service.go:191-200 | Such a record rests on three runs told by what they met: the whole table of contents fetched and written, a GII feed with every item stored, and all BGBl feeds read with every item stored, each stamped within the maximum age |
| `EndToEnd.NothingServedWhileDegraded` | internal/service/service.go:190-200 | While a BGBl feed error stands, that evaluation confirms no law, whatever the store holds |
| `Verdict.ProveVRefResolutions` | internal/instruments/vref_proof.go:184-199 | The composed pipeline equals resolving, proving each child as a leaf, then superseding, over the children's stored Stands |
| `Verdict.EvaluateLeafChildFreshness` | internal/instruments/vref_proof.go:134-180 | A child is judged by the same verdict function with no linked rows and no resolutions of its own; a slug without a key is uncertain |
| `Verdict.CollectEvidence` | internal/instruments/evidence.go:20-56 | The loops yield the refs of Stand, editorial notes and linked rows with their Stands, one per key, and the cited stored issues, one per id |
| `Verdict.BuildChildStands` | internal/instruments/vref_resolve.go:238-254 | The nested loops give a map whose keys are exactly the lookup keys of the children under which a Stand is stored, each with that Stand |
| `VRefs.ResolveOperativeVRefs` | internal/instruments/vref_resolve.go:36-112 | One resolution per operative ref the parent Stand does not reflect, in order; identity before index before history; what that means for the rows is `ResolutionExact.ResolveExact` |
| `VRefs.ApplyChildFreshnessProof` | internal/instruments/vref_proof.go:28-48 | Exactly the matched entries whose child is confirmed_current become resolved; order and all else stay |
| `VRefs.MarkSupersededPastKindV` | internal/instruments/vref_proof.go:52-131 | The copying loop equals the entry-wise function of the entry and of the set of slugs confirmed anywhere in the list |
| `VRefs.MarkedIdempotent` | internal/instruments/vref_proof.go:52-131 | Marking twice is marking once |
| `VRefs.MarkedOrderIndependent` | internal/instruments/vref_proof.go:52-131 | What becomes of an entry does not depend on the order or the repetition of the others |
| `VRefs.MarkedKeepsConfirmed` | internal/instruments/vref_proof.go:52-131 | A superseded ref never itself confirms a sibling: the set of confirmed slugs is the same before and after marking |
| `VRefs.MatchChildrenMembers` | internal/instruments/vref_resolve.go:142-154 | The matches of a ref are exactly the children whose notes or Stand name its issue |
| `VRefs.FindIndexedExact` | internal/instruments/vref_resolve.go:222-235 | The child found through the BGBl index is the first with the entry's slug or law id; none is found exactly when no child has either |
| `Freshness.Evaluate` | internal/freshness/eval.go:33-133 | The imperative evaluation, loops included, returns the verdict function's record; a zero now reads the clock |
| `Freshness.VerdictExact` | internal/freshness/eval.go:33-133 | confirmed_current if and only if sync is usable, the Stand parsed, no issue counted newer and no ref blocking; confirmed_stale if and only if sync is usable and some counted issue is newer |
| `StandOrder.StaleIff` | internal/freshness/eval.go:33-133 | confirmed_stale if and only if the three stamps lie within bounds, links were read, evidence is not the probe's, and some issue looked at is newer by the reference order: by year within its Teil, by the decimal value of the leading digits within the year, else by dates. The reported ids are exactly those of such issues |
| `StandOrder.LinkedAfterIsStale` | internal/freshness/eval.go:76-85 | A linked issue of the Stand's Teil with a later year, or the same year and a greater number, that is no bare notice makes the law stale and is reported |
| `StandOrder.CitedAfterIsStale` | internal/freshness/eval.go:86-95 | So does a stored issue cited as a law or an ordinance |
| `StandOrder.NothingAfterIsNotStale` | internal/freshness/eval.go:151-170 | Issues of an earlier year, or of the same year and a number that is not greater, never make a law stale |
| `StandOrder.NewerMeaning` | internal/freshness/eval.go:151-170 | On any issue and Stand, the comparison through citations is the reference order |
| `StandOrder.AloneCurrentIff` | internal/freshness/eval.go:33-133 | Without resolutions: current if and only if sync is fresh and complete, the Stand is parsed, no issue looked at is newer and no citation is open, told on the fields |
| `StandOrder.DoubtTells` | internal/freshness/eval.go:52-72 | What stands first in the way is the answer given: old sync, probe-only evidence, unread links, then the unparsed Stand, all with low confidence, and open citations with medium |
| `StandOrder.RecordTells` | internal/freshness/eval.go:33-133 | The record is about the law and instant asked for; a confirmed answer has medium confidence exactly when its links are only guessed |
| `StandOrder.ReportedIff` | internal/freshness/unresolved.go:16-74 | Each diagnosis is reported exactly when some citation calls for it, told on its kind, section, Stand and resolution |
| `StandOrder.BareNotice` | internal/freshness/eval.go:330-343 | A bare notice is told by the first word of the trimmed title in any letter case: Bekanntmachung, Bek. or Bek |
| `StandOrder.EvidenceUsed` | internal/freshness/evidence.go:14-27 | Feed evidence counts while its stamp is within bounds; else the probe's, if that is and is later; else none |
| `StandOrder.PagesDecide` | internal/citation/parse.go:279-288 | Citations of one Teil and year without usable numbers are ordered by their page numbers |
| `StandOrder.NumberRead` | internal/citation/parse.go:292-304 | The number an issue is ordered by is the decimal value of its leading digits, wrapped once to 64 bits |
| `StandOrder.ShortNumberRead` | internal/citation/parse.go:292-304 | Up to 18 digits it is that decimal value |
| `Freshness.NewerIDsExact` | internal/freshness/eval.go:77-106 | The reported newer ids are exactly the ids of the counted newer issues, each once |
| `Freshness.NamedIssueIsNewerIff` | internal/freshness/eval.go:151-170 | For any issue and any parsed Stand with its Teil, year and number: newer exactly when the Stand carries no comparable number and the issue is dated after it |
| `Freshness.NamedStoredIssueIsNewerIff` | internal/freshness/eval.go:151-170 | For an issue as the jobs store it: one that a parsed Stand names counts as newer exactly when its number has no positive value and it is dated after the Stand |
| `Freshness.NamedShortNumberIsNewerIff` | internal/freshness/eval.go:151-170 | For stored numbers of at most 18 characters that means: exactly when all digits of the number are zeros and the dates say so |
| `Freshness.NamedIssueCanBeNewer` | internal/freshness/eval.go:151-170 | It happens for a stored issue: the Stand BGBl. 2024 I Nr. 0 of 2.1.2024 and issue 0 of 2024, Teil I, published the day after |
| `Freshness.PageStandDecidesByDate` | internal/freshness/eval.go:151-170 | Against a Stand that cites by page, without a number, every stored issue of its Teil and year is judged by the dates alone |
| `Freshness.UnresolvedProof` | internal/freshness/eval.go:226-264 | The flag loop answers exactly whether some ref is unmatched or matched to an unconfirmed child, and names unmatched first |
| `Freshness.UnresolvedBlunt` | internal/freshness/eval.go:210-223 | Without resolutions every operative ref the Stand does not reflect blocks, and nothing else does |
| `Freshness.OnlyHeuristic` | internal/freshness/eval.go:172-194 | True exactly when some linked issue is classed heuristic and none is classed confirmed |
| `Freshness.FindVRefResolutionExact` | internal/freshness/eval.go:345-370 | The lookup finds a resolution if and only if one names the same instrument, and then the first such |
| `Freshness.CollectUnresolvedRefs` | internal/freshness/unresolved.go:16-74 | The report lists each ref's diagnosis in order; the two inner missing_seed branches are unreachable |
| `Freshness.DiagnosticsAgree` | internal/freshness/unresolved.go:16-74 | For every input: refs block if and only if the report holds unmatched or child_not_current, and the rationale is the unmatched one exactly when some entry is unmatched |
| `Citation.CompareAntisymmetric` | internal/citation/parse.go:250-290 | On all pairs, swapping the citations flips the sign and keeps comparability; different Teile never compare |
| `Citation.CompareLexicographic` | internal/citation/parse.go:250-290 | On citations with parseable issue numbers the answer is exactly the lexicographic order on year and number, and exists exactly within one Teil |
| `Citation.CompareTotalPreorder` | internal/citation/parse.go:250-290 | Hence reflexive, total and transitive on the numbered citations of a Teil |
| `Citation.ParseIssueNum` | internal/citation/parse.go:292-304 | The digit loop yields the leading number in wrapping 64-bit arithmetic, and fails exactly when that is not positive |
| `Citation.NoValueIffZero` | internal/citation/parse.go:292-304 | A number of at most 18 characters, digits and at most one letter, is refused exactly when all its digits are zeros |
| `Citation.IssueIDInjective` | internal/citation/parse.go:307-309 | Equal issue ids mean equal Teil, year and number |
| `Chain.AnnotateChain` | internal/instruments/chain.go:20-90 | Grouping, stable in-place sort and labelling give every row in its place the status defined by the set of rows that supersede it, and change nothing else but an empty coverage |
| `Chain.StableSort` | internal/instruments/chain.go:48-63 | The in-place sort permutes the index list into the one order a stable sort by date produces, undated rows last |
| `Chain.OneCurrentPerSection` | internal/instruments/chain.go:48-88 | A section with a row in force has exactly one dated current row; it is the latest, ties by input order; other rows in force are past; dated rows not yet in force are future |
| `Chain.StatusMovesForward` | internal/instruments/chain.go:48-88 | As the day advances a dated row only moves from future to current to past |
| `Chain.StatusByDates` | internal/instruments/chain.go:20-90 | The status on dates and trimmed section hints alone: future before the day; past once a row of the section with a later day, or the same day further down, is in force; current otherwise; undated rows keep theirs |
| `Chain.MembersByStatus` | internal/instruments/chain.go:93-130 | Bundles hold current rows, past ones on request, and undated ones discovered with high confidence; responses hold all but past ones unless asked |
| `Text.TrimExact` | internal/instruments/chain.go:132-138 | The trimming before sections are compared takes spaces off both ends, all of them and nothing else |
| `Chain.BundleHoldsOneDatedPerSection` | internal/instruments/chain.go:111-130 | A bundle without past rows holds at most one dated row per section |
| `Chain.FilterBundleMembers` | internal/instruments/chain.go:111-130 | The loop keeps, in order, the current rows, past ones on request, and unlabelled rows only if discovered with high confidence |
| `Chain.FilterLinkedForResponse` | internal/instruments/chain.go:93-105 | The loop keeps, in order, every row that is not past, or all on request |
| `SyncJobs.NoConfirmedUntilSuccess` | internal/sync/orchestrator.go:262-354 | Over any runs on a strictly increasing clock, from a marked BGBl feed error until the next feed run that reports success: no law evaluates to confirmed_current while some marked error has not been cleared by a complete run that failed to stamp; once it has, the last success stamp is evidence again |
| `SyncJobs.BlockUntilSuccess` | internal/sync/orchestrator.go:262-354 | With no successful feed run since a marked error, the block stands exactly as long as no complete run has cleared the mark without stamping after the last marked error |
| `SyncJobs.LiftsIff` | internal/sync/orchestrator.go:332-354 | On a strictly increasing clock a run ends the block exactly when it reports success, or clears the mark and is refused its stamp |
| `SyncJobs.ClearWithoutStampRevives` | internal/sync/orchestrator.go:345-350 | Success at 10h, marked error at 11h, complete feeds at 12h with the clear accepted and the stamp refused: the third run is reported as failed, yet the 10h stamp counts again |
| `SyncJobs.NoConfirmedWhileDegraded` | internal/sync/orchestrator.go:262-354 | Over any runs on a strictly increasing clock, from a marked BGBl feed error until a complete feed run writes its clear or its stamp, no law evaluates to confirmed_current |
| `SyncJobs.ErrorDegradesUntilLifted` | internal/sync/orchestrator.go:262-354 | The degraded window read off the history: a marked error at some position and no later complete feed run that wrote its clear or its stamp |
| `SyncJobs.EvidenceExact` | internal/freshness/evidence.go:29-37 | On a strictly increasing clock the feed evidence is void exactly before the first stamped success and inside the degraded window |
| `SyncJobs.ConfirmedCurrentNeedsSuccesses` | internal/freshness/eval.go:135-149 | On any clock, any confirmed_current rests on a complete TOC, a complete GII and a complete BGBl run, each within the maximum age |
| `SyncJobs.ConfirmedCurrentNeedsCompleteRuns` | internal/sync/orchestrator.go:61-355 | Any confirmed_current rests on three runs, told on their fields: catalog fetched and written; GII feed fetched and no item refused; no BGBl feed failed, some item found and none refused; each stamped within the maximum age |
| `SyncJobs.CompleteIff` | internal/sync/orchestrator.go:61-422 | A job counts as done exactly when nothing was unread, nothing was refused and there was something to do |
| `SyncJobs.StampsAreSuccesses` | internal/sync/meta.go:22-34 | Every non-zero success stamp is the instant of a run of that job that did all its work |
| `SyncJobs.StampsNeverDecrease` | internal/sync/meta.go:22-34 | Over any runs, on any clock, success stamps never decrease |
| `SyncJobs.MarkEffectiveIff` | internal/sync/meta.go:14-20 | On an arbitrary clock a feed error voids the evidence exactly when it is later than the success stamp it meets |
| `SyncJobs.ClockJumpKeepsEvidence` | internal/sync/meta.go:14-20 | A run with a clock set back in which a feed error leaves the old evidence standing: why the clock condition is needed |
| `SyncJobs.RefusedMarkKeepsEvidence` | internal/sync/meta.go:14-20 | A run in which the store refuses the error mark and the old evidence stands: why the write is needed |
| `SyncJobs.Orchestrator.StampSuccessMeta` | internal/sync/meta.go:22-34 | Writes the stamp unless a later one is stored; succeeds exactly when written or rightly left |
| `SyncJobs.Orchestrator.RunTOC` | internal/sync/orchestrator.go:61-137 | Told on the job's fields: without both the fetch and the catalog write it fails and changes nothing; with both the stamp rises to its instant if that write goes through and no later one stands there |
| `SyncJobs.Orchestrator.RunGIIFeed` | internal/sync/orchestrator.go:173-259 | Every item the store accepts is kept, also after a refused one; a refused item or a failed fetch fails the run and changes no stamp, otherwise the stamp rises |
| `SyncJobs.Orchestrator.RunBGBlFeeds` | internal/sync/orchestrator.go:262-354 | Told on the job's fields: a failed feed fails the run and at most writes the degraded mark; with no feed failed, no item at all or one refused item fails it and changes nothing; otherwise the mark is cleared and the stamp rises, as far as those writes go through |
| `SyncJobs.Orchestrator.RunELIProbe` | internal/sync/orchestrator.go:357-422 | The stamp rises when some probe reached the server and no found issue was refused; otherwise the run fails and changes nothing |
| `Levenshtein.Compute` | internal/search/engine.go:288-317 | The two-row in-place algorithm with row swap computes the distance recurrence of the whole words |
| `Levenshtein.DistanceIsMinimumEdits` | internal/search/engine.go:288-317 | The distance is the least number of single-character insertions, deletions and replacements that turns one word into the other: a path of that length exists and none is shorter |
| `Levenshtein.OptimalScript` | internal/search/engine.go:288-317 | Some left-to-right edit script between the words costs exactly the distance |
| `Levenshtein.NoCheaperScript` | internal/search/engine.go:288-317 | No edit script costs less than the distance of what it reads and writes |
| `Levenshtein.TriangleInequality` | internal/search/engine.go:288-317 | The distance obeys the triangle inequality |
| `Levenshtein.DistanceSymmetric` | internal/search/engine.go:288-317 | The distance is symmetric |
| `Levenshtein.DistanceZero` | internal/search/engine.go:288-317 | The distance is zero only between equal words |
| `Levenshtein.DistanceBounds` | internal/search/engine.go:288-317 | The distance is at most the longer length and at least the difference of the lengths |
| `Levenshtein.Min3` | internal/search/engine.go:319-327 | The least of three numbers |
| `Levenshtein.Similarity` | internal/search/engine.go:257-286 | The byte-prefix loop and the distance give the score, which `Levenshtein.SimilarityInEdits` tells in edits; its floor at zero is never needed |
| `Levenshtein.SimilarityInEdits` | internal/search/engine.go:256-286 | The score of two different words is one minus the length of a shortest chain of single-character edits over the greater byte length |
| `Levenshtein.PrefixWithinDistance` | internal/search/engine.go:274-281 | The prefix bonus never decides: the shared leading bytes are never more than the longer encoding has over the distance, since different characters share at most lead bytes |
| `Levenshtein.SimilarityLaws` | internal/search/engine.go:257-286 | The score is symmetric, lies in [0,1] and is 1 exactly on equal non-empty words |
| `SearchIndex.Resolve` | internal/search/engine.go:77-188 | For any catalog with unique ids, any variants, threshold and similarity: a query naming book n returns a law exactly when one catalog law has book number n, and then that law; otherwise no best match. Any other query returns a candidate of the highest score exactly when that reaches the threshold. Suggestions are the next ten of the ranking, or of the laws of the book when it has several |
| `SearchIndex.ScoreLevels` | internal/search/engine.go:84-112 | A key that is an abbreviation or an id gives the law at least 1, an exact title 0.98, a variant 0.95 |
| `SearchIndex.FuzzyLevels` | internal/search/engine.go:113-123 | Similarity to the abbreviation counts by 0.92, to the title by 0.85, a substring by 0.8, the abbreviation from three bytes on |
| `SearchIndex.UnnamedAtMost` | internal/search/engine.go:84-123 | A law no key names scores at most 0.95, and at most 0.92 without a variant: an exact title outranks a variant, and a variant anything fuzzy |
| `SearchIndex.ScoreEarned` | internal/search/engine.go:84-123 | Every score is earned by one key against one law or name; nothing adds up |
| `SearchIndex.BookLawScores` | internal/search/engine.go:77-122 | Whatever the fuzzy scores, a law whose book is asked for gets a full exact score |
| `SearchIndex.HitsAreTheBook` | internal/search/engine.go:140-166 | A single hit after filtering is the single law of the book, and conversely |
| `SearchIndex.Build` | internal/search/engine.go:52-74 | Every key lists exactly the ids of the laws filed under it by abbreviation, alias or title; ids and variants map to the last entry |
| `SearchIndex.ComputeScores` | internal/search/engine.go:77-122 | The score map, updated in five lookups and a nested loop, holds for every id the best score any key of the query gives it |
| `SearchIndex.Rank` | internal/search/engine.go:131-136 | Sorting loses and repeats no candidate, puts higher scores first and equal scores in order of abbreviation |
| `SearchIndex.FilterSGB` | internal/search/engine.go:214-222 | Keeps exactly the candidates whose law has the book number |
| `SGB.ParseSGBBookQuery` | internal/normalize/sgb.go:12-28 | A text names a book exactly if it is sgb in any case, separators, and a positive number or numeral; a number wins over a numeral |
| `SGB.NumberedBook` | internal/normalize/sgb.go:12-28 | SGB, any separators and a printed number name the book of that number, whatever the number |
| `SGB.RomanBook` | internal/normalize/sgb.go:12-55 | So do SGB, separators and the numeral |
| `SGB.BookOfLaw` | internal/search/engine.go:199-212 | A law abbreviated like that is the law of that book |
| `SGB.RomanToInt` | internal/normalize/sgb.go:31-54 | The right-to-left loop values a numeral by the subtraction rule and rejects foreign letters |
| `SGB.IntToRoman` | internal/normalize/sgb.go:57-71 | The greedy loop writes the numeral, for 1 to 20 only |
| `SGB.RomanRoundTrip` | internal/normalize/sgb.go:31-71 | Reading a written numeral gives the number back |
| `SGB.LawHasBookKey` | internal/normalize/sgb.go:101-134 | A law with a book number, by abbreviation or by id, is filed under the key of that book |
| `SGB.QueryHasBookKey` | internal/normalize/sgb.go:73-98 | A query for a book asks for the key of that book |
| `SGB.IDNumberLower` | internal/search/engine.go:199-212 | The number at the end of an id is the same read from the lower-cased and from the stored id, so the two readers agree |
| `UnitBuilder.ExtractUnits` | internal/export/export.go:286-512 | For every complete token stream with body text or metangabe text: apart from the metangabe units, the unit texts run together are exactly the accepted body text up to whitespace, the metangabe units hold their elements' texts in order, and every text is tidy; any other stream yields one ambiguous unit of the tag-free document, or none if that is blank |
| `UnitTrees.DocumentText` | internal/export/export.go:367-511 | On every document tree the accepted text is what the tree keeps, by recursion on element and ancestors: all text in an open paragraph, and non-blank text inside textdaten, outside metadaten and outside elements being collected; a paragraph ends when a p, absatz or norm inside it has been closed |
| `UnitTrees.StretchControl` | internal/export/export.go:367-476 | Reading a balanced stretch of tokens leaves the stack of open elements as it was |
| `UnitTrees.DocumentNotes` | internal/export/export.go:446-466 | The metangabe units are the notes of the tree, in document order |
| `UnitTrees.MetangabeNote` | internal/export/export.go:462-465 | A metangabe outside paragraphs with nothing marked inside yields its whole text, normalized, as one unit |
| `UnitTrees.OrderlyDocument` | internal/export/export.go:477-494 | Where no paragraph holds a paragraph or norm and no heading or note holds another, the ancestors alone decide: everything inside p or absatz, and stray text of textdaten |
| `UnitTrees.NestedParagraphTail` | internal/export/export.go:467-468 | A paragraph inside a paragraph ends both: the rest of the outer one is lost outside textdaten |
| `UnitTrees.UnitsOfDocument` | internal/export/export.go:286-512 | Units that conserve a document's tokens hold the text of its tree up to whitespace and, apart from it, its notes |
| `UnitBuilder.RunMachine` | internal/export/export.go:286-497 | The token loop with its final flushes leaves nothing in the buffer: what was accepted is what was emitted |
| `UnitBuilder.NothingBuiltIff` | internal/export/export.go:499-511 | Nothing is built exactly when the accepted text is blank and no metangabe had text |
| `UnitBuilder.Machine.OnToken` | internal/export/export.go:381-495 | Every token extends emitted plus buffered text by exactly the body text it carries, and moves the control state as specified |
| `UnitBuilder.Machine.OnCharData` | internal/export/export.go:477-494 | Character data is kept inside a paragraph, goes to metadata inside metangabe, and counts as stray text only inside textdaten and outside metadaten |
| `UnitBuilder.Machine.AppendCharData` | internal/export/export.go:244-268 | Appending adds the text up to whitespace; a single space joins it exactly between two non-spaces, but not before closing or after opening punctuation, and a blank text is reduced to such a space |
| `UnitBuilder.Machine.Emit` | internal/export/export.go:327-365 | Emitting moves the buffer text into the units without loss; blank text yields no unit |
| `UnitBuilder.NormalizedExact` | internal/export/export.go:226-242 | Normalizing changes nothing but whitespace, leaves single inner spaces, and is empty only on blank text |
| `UnitBuilder.NormalizedWords` | internal/export/export.go:226-242 | The normal form is the words of the text joined by single spaces: no word is split and no two run together |
| `UnitBuilder.RunsMeet` | internal/export/export.go:244-284 | Runs of text that meet letter to letter are kept apart by one space; before closing and after opening punctuation none is put in |
| `UnitBuilder.NormalizeWhitespace` | internal/export/export.go:226-242 | The builder loop computes that normal form |
| `Compose.ComposeOperativeHierarchical` | internal/export/compose_operative.go:73-132 | The index-driven loops with in-place filtering render exactly the arrangement in which each member sits after the first section its hint matches, else at the end; without members the parent is returned as it is |
| `Compose.CompositionConserves` | internal/export/compose_operative.go:73-132 | For every parent and members: each parent line once in order, each callout exactly once; before every callout stand exactly the lines up to the end of its section (all lines if it matches none), and of its place only earlier members |
| `Callouts.CalloutPlace` | internal/export/compose_operative.go:73-132 | On lines and hints alone: before a callout stand exactly the lines up to the end of the first section whose header covers its hint, and all lines if none does |
| `Callouts.CalloutOrder` | internal/export/compose_operative.go:73-132 | Callouts of one section, and those of none, stand in member order |
| `Callouts.ComposedSays` | internal/export/compose_operative.go:73-132 | Line breaks aside, the composed text is the text of its lines and blocks in order; it ends in exactly one line break |
| `Callouts.CoversIff` | internal/export/compose_operative.go:40-57 | A header covers a hint if and only if the hint has words and they are the first words of the header |
| `Callouts.SectionOneIsNotTen` | internal/export/compose_operative.go:40-57 | The hint of section 1 covers its header and not that of section 10 |
| `Compose.PlacementForHint` | internal/export/compose_operative.go:59-69 | The placement is in a section exactly when some header line matches the hint |
| `Compose.NothingLeft` | internal/export/compose_operative.go:123-125 | No placed callout is left after the last line, so the final sweep adds nothing to the end blocks |
| `Compose.Drain` | internal/export/compose_operative.go:110-120 | The in-place filter hands out the matching items in order and keeps the others in order |
| `Layout.KeepsLines` | internal/export/compose_operative.go:73-132 | Any arrangement holds every parent line once, in order |
| `Layout.KeepsMembers` | internal/export/compose_operative.go:73-132 | Any arrangement holds every member's callout exactly once |
| `Layout.PlacesCallouts` | internal/export/compose_operative.go:73-132 | Every callout stands where its slot says, after exactly the lines before it and in member order within the slot |
| `IndexChunks.DedupeChunkIDs` | internal/export/index_chunk.go:95-120 | Terminates on every list; a free id is kept, a taken one gets the least free suffix from 2 on, and no other field changes |
| `IndexChunks.FreeCandidate` | internal/export/index_chunk.go:108-117 | The unbounded search ends, since candidates are pairwise different and finitely many ids are taken; it returns the least free suffix |
| `IndexChunks.DedupedDistinct` | internal/export/index_chunk.go:92-120 | Ids come out pairwise distinct, every other field as it was |
| `IndexChunks.DedupeIdempotent` | internal/export/index_chunk.go:95-120 | Deduplicating twice is deduplicating once |
| `IndexChunks.DedupedDetermined` | internal/export/index_chunk.go:95-120 | The input determines the output |
| `IRCache.Replay` | internal/export/export.go:64-113 | Over any sequence of Put and InvalidateLaw on a fresh cache, with any eviction choice: a hit is the last Put for exactly that law and content since its last invalidation, what was put last is there, and the size never exceeds max |
| `IRCache.Cache.Get` | internal/export/export.go:82-87 | A hit carries the asked law and content and is the last Put for them; a stored key is always hit |
| `IRCache.Cache.Put` | internal/export/export.go:89-103 | The new entry is in, the other entries are old ones, nothing goes while there is room, and at capacity at most half of it goes (one entry if it is 1) |
| `IRCache.Cache.InvalidateLaw` | internal/export/export.go:105-113 | Exactly the entries of that law go |
| `IRCache.KeysCollideIff` | internal/export/export.go:78-80 | Two different ids can share a cache key exactly when one continues the other past the separator; hence never for normalized law ids |
| `Throttle.GrantsSpaced` | internal/httpx/client.go:280-299 | Under any interleaving on a monotone clock two grants for one host are at least minGap apart |
| `Throttle.WindowBound` | internal/httpx/client.go:280-299 | Any window of length W holds at most W / minGap + 1 grants for a host |
| `Throttle.GrantDependsOnOwnHost` | internal/httpx/client.go:280-299 | Whether an attempt goes through depends on earlier attempts for its own host alone, on any clock |
| `Throttle.SleepSuffices` | internal/httpx/client.go:280-299 | A caller told to wait goes through after sleeping that long, unless another caller was granted the host meanwhile |
| `Throttle.Client.TryHost` | internal/httpx/client.go:282-290 | A pass grants and records, or returns the remaining wait and changes nothing; a host never seen reads as the zero time |
| `Throttle.Client.Serve` | internal/httpx/client.go:280-299 | A client that serves the passes of all callers in lock order answers each as the run semantics says, so the spacing results are about its state |
| `Throttle.NoGapNeverWaits` | internal/httpx/client.go:39-46 | A client configured with a negative gap works without one: on a monotone clock every attempt goes through |
| `Assembly.LinkedInstrumentsFor` | internal/service/service.go:279-315 | The service copy: without a failed read the specified assembly, after one the seeds read so far and the failure |
| `Assembly.ReconcileLinked` | internal/sync/orchestrator.go:500-528 | The reconcile copy meets the same specification, on whatever edges were read |
| `Assembly.CopiesAgree` | internal/service/service.go:279-315 | Two results that meet the specification on the same store are equal, so both copies agree when no read fails |
| `Assembly.NoDiscoveredUnderFamily` | internal/discovery/family_prefix.go:12-42 | For every catalog: no row of source discovered has a slug under any family prefix of the parent, and each such row is a stored high-confidence edge |
| `Assembly.OthersPresent` | internal/service/service.go:279-315 | Nothing else is dropped: every seed of the parent and every high-confidence edge under no family prefix is represented |
| `Assembly.NewestEditionPresent` | internal/instruments/family.go:147-171 | Every family of the parent with a usable newest edition is represented by that edition |
| `Linked.Merge` | internal/discovery/merge.go:29-61 | One row per parent and slug key, ascending, each the winner of its key, in whatever order the map yields its keys |
| `Linked.RowOfKey` | internal/discovery/merge.go:29-61 | The row that stands for a key is the last seed of the key, or without seeds the first discovered with high confidence |
| `Linked.SeedsWin` | internal/discovery/merge.go:29-61 | A result row is a seed wherever some seed has its key, and otherwise a high-confidence discovered row |
| `Linked.NothingLost` | internal/discovery/merge.go:29-65 | Parent and slug of every seed and of every high-confidence discovered row are in the result |
| `Linked.MergeUnique` | internal/discovery/merge.go:29-61 | There is only one such list: map iteration order leaves no trace |
| `Linked.LinkKeyInjective` | internal/discovery/merge.go:63-65 | With separator-free parent keys a link key names one parent and one slug |
| `Families.LatestSlugByPrefix` | internal/instruments/family.go:107-126 | The tracking loop returns the first law of the highest year behind the prefix, or nothing if no law has one |
| `Families.LatestIsNewest` | internal/instruments/family.go:107-144 | The slug comes from the catalog, has a year behind the prefix, and no law of the catalog has a higher one |
| `Families.EditionYear` | internal/instruments/family.go:128-144 | Prefix and printed year, and prefix, anything, underscore and printed year, have that year |
| `Families.YearIsPrinted` | internal/instruments/family.go:128-144 | Only a printed year from 1000 to 9999 reads as a year |
| `Families.ExpandForParent` | internal/instruments/family.go:147-171 | One row per family with a usable newest edition, in family order |
| `Families.ShouldDrop` | internal/discovery/family_prefix.go:31-42 | A slug is dropped exactly when some non-empty prefix covers it and it is not a kept edition; which prefix matches first does not matter |
| `Families.FilterDiscoveredByFamilyPrefixes` | internal/discovery/family_prefix.go:12-28 | Exactly the surviving rows, in order; with no prefixes all of them |
| `Ingest.IngestLawXML` | internal/discovery/ingest.go:359-496 | On success the slug's edges are untouched when nothing is wanted and otherwise exactly the wanted ones, counted; whatever write fails, edges of other slugs stay; nothing changes after a refused slug, document or deletion |
| `Ingest.WantedMeaning` | internal/discovery/ingest.go:388-482 | A parent gets an edge exactly when the Fundstelle is known and some reference that resolves to it alone cites a section |
| `Ingest.EdgesOfSlug` | internal/discovery/ingest.go:483-495 | After a replacing ingest the slug's edges are those of the wanted parents, one each |
| `Ingest.WantedKeyUnique` | internal/store/discovery.go:31-33 | Different wanted parents are filed under different keys |
| `Ingest.IngestDetermined` | internal/discovery/ingest.go:454-495 | The outcome does not depend on the order in which the parent map is walked |
| `Ingest.IngestIdempotent` | internal/discovery/ingest.go:359-496 | Ingesting the same document again changes nothing |
| `Ingest.HintsExact` | internal/discovery/ingest.go:390-423 | An edge's sections are distinct and exactly those cited for its parent |
| `Ingest.HintsInOrder` | internal/discovery/ingest.go:390-423 | Sections stand in first-seen order: reading on only adds at the end |
| `Ingest.TitleFallbackIdle` | internal/discovery/ingest.go:425-452 | When the title fallback after the loop finds a parent there is no reference left, so it never yields an edge |
| `Ingest.ParentMeaning` | internal/discovery/ingest.go:400-412 | A reference belongs to p exactly when its exact names mean p alone; or they do not settle it and its title phrase does; or neither does, it names nothing itself, and the first telling phrase of the law's own title means p alone |
| `Ingest.EdgeSays` | internal/discovery/ingest.go:454-482 | An edge names its parent and child with high confidence; its notes are the law's own place in the gazette, or else the words of the first reference to the parent |
| `Ingest.SoleIDExact` | internal/discovery/parent_resolve.go:161-167 | A parent is unique exactly when every candidate that normalizes to something normalizes to it |
| `Ingest.HighIff` | internal/discovery/parent_resolve.go:270-289 | High confidence needs exactly a unique parent, a section and a Fundstelle; the editorial flag never decides |
| `Store.Store.DeleteDiscoveredBySlug` | internal/store/discovery.go:82-113 | Exactly the edges of the slug go; an empty slug deletes nothing |
| `Store.Store.DiscoveredForParent` | internal/store/discovery.go:116-136 | Exactly the stored edges whose parent normalizes to the same key, each once |
| `Store.Store.UpsertDiscoveredLink` | internal/store/discovery.go:71-78 | Replaces the edge of that parent and slug and no other |
| `Store.Store.UpsertBGBlIndex` | internal/store/discovery.go:45-52 | Replaces the entry of that citation and no other |
| `Store.Store.LookupBGBlIndex` | internal/store/discovery.go:55-68 | Finds the entry of exactly the asked citation, and misses only if there is none |
| `LabelKeys.RoundTripIff` | internal/metrics/registry.go:299-337 | For every label map with valid names, decoding its key gives the map back if and only if no value holds a bar; '=' in values does no harm |
| `LabelKeys.KeysDistinct` | internal/metrics/registry.go:299-337 | Label sets without bars share a key only if they are equal |
| `LabelKeys.EncodesUnique` | internal/metrics/registry.go:299-322 | A label set has one key, whatever order the map is walked in |
| `LabelKeys.SharedWithSeparator` | internal/metrics/registry.go:299-322 | Two different label sets, one with a bar in a value, that share a key |
| `LabelKeys.SharesIff` | internal/metrics/registry.go:299-322 | A valid label set shares its key with another valid one exactly when it has several labels, or its one value continues past a bar with a valid later name and an equals sign |
| `LabelKeys.CanonicalLabelKey` | internal/metrics/registry.go:299-322 | The sorting builder yields the key of the label set, and fails exactly on an invalid name |
| `LabelKeys.DecodeLabelKey` | internal/metrics/registry.go:324-337 | The loop cuts at bars and at the first '=' of each part and skips parts without one |
| `LabelKeys.Registry.IncCounter` | internal/metrics/registry.go:126-149 | Adds to the one series of the name and label set, or refuses invalid names without a trace |
| `LabelKeys.Registry.SetGauge` | internal/metrics/registry.go:152-175 | Sets the one series of the name and label set, or refuses invalid names without a trace |
| `LabelKeys.SeriesSeparate` | internal/metrics/registry.go:126-175 | Writing one series leaves what every other name and label set reads alone |
| `Bundle.AggregateBundleFreshness` | internal/service/bundle.go:253-313 | The bundle has the worst state of its members, stale before uncertain; it is safe to serve exactly when every member present was evaluated and is confirmed current, which a bundle without members satisfies; the rationale names stale, then the parent, then members |

## Left out

- Parsing of citations, Stand texts, authorising clauses and title phrases, and catalog lookup of parents: their results are inputs.
- The normalizer itself and Unicode case tables; string comparisons follow the ASCII letters and the few other characters that fold into them.
- The XML decoder, character sets and the rejection of unsafe XML: the builder starts from tokens.
- Unit classification, unit ids and section bookkeeping beyond which text goes where; structural ambiguity is modelled but nothing is proved about it.
- The text of a callout (`formatVerordnungCallout`) and the removal of chrome from member bodies: a callout is a given block.
- `FilterOperativeLinked`, which looks up instrument kinds in the store before the evaluation: the evaluation takes its result.
- Repair of an unparsed Stand from its raw text before an evaluation.
- Link, issue and title bookkeeping of the sync jobs, heuristic linking, and candidate selection for discovery: the jobs are modelled by what they fetch, store and stamp.
- Store reads that fail other than law, edge and link reads; the program ignores their errors and the model has them succeed.
- Rounding of floating-point scores, counters and gauges.
- `FilterIndexChunks`, `MatchSectionFilter` and formulary detection: filters without a property of their own.
- The Prometheus text writer: only the series and their keys are modelled.
- A nil search snapshot and nil registries, which answer with nothing.
- Network, bbolt, zip, JSON, configuration, HTTP, MCP and command-line code; address checks, authentication and error masking.
- Throttle.Client.TryHost: the sleep between two passes of a caller and its cancellation are not modelled; a run is the sequence of passes the lock admits.
- Chain.StableSort: the library's stable sort is modelled as an in-place insertion sort.
- SearchIndex.Rank: the library's sort leaves the order of equal candidates open, and so does the contract.
- SearchIndex.Resolve: the case split on a book query after the threshold test, which the earlier branch makes unreachable, is not repeated.
- Store.Store.DiscoveredForParent: bucket order is not modelled; the merge that consumes the rows does not depend on it, since stored edges have distinct keys.
- Ingest.IngestLawXML: the error values of failed writes are reduced to failure.
- IRCache.Cache.InvalidateLaw: law ids are taken to be normalized, hence free of the separator.
