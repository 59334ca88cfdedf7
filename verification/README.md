# Verification models of the operational scripts

This project models the algorithmic core of nine scripts of the repository in Dafny and proves what
they promise. Each `.dfy` file is one module named after what it models; a method or class follows
the imperative code step by step and is proved against a specification function, and the lemmas
beside it say what that specification means. To verify: `dafny verify dfyconfig.toml`.

**Redacting a stream** (`RedactionSpec`, `RedactionStream`, `RedactionBound`, `RedactionSafety`,
`RedactionExposure`, `RedactionRefinement`, `RedactionPrefixes`). The generator `_iter_redacted` is a class whose `Next`
resumes it to its next yield; `pending`, `index` and `output` are its state. A stream may return any
non-empty piece per read. What has been emitted, completed by a scan of what is left, is always the
streamed form of the whole text, so the output and the position where the scan stops depend on the
text and the secrets only. Every output character carries its origin (a raw position, or a place in a
marker), which makes "every occurrence of a secret lost a character" a statement about raw positions
and lets markers be shown to stay whole. A secret is exposed to the marker when it can overlap it in
agreement; a secret redacted alone can reappear exactly then, and no secret does when none aligns.
Streaming and one-shot replacement differ in general; for secrets that align with the marker nowhere,
and unless one is a prefix of an earlier one, they agree exactly when no later secret can hide an
earlier one (`NoConflict`).

**Bounded captures** (`RollingTail`). Both rolling tails and the capped complete mode, over any chunks.

**Cleanup of the KubeRay pilot** (`SharedMemory`, `Cleanup`, `CleanupClassification`,
`BlockedEvidence`, `BlockedExactly`). The producer of the semaphore summary and the validator of the
retained record, the assessment, the retrying observer, the appended final capture, the
classification, and the validator that recomputes it. What a record concludes is stated on the
snapshots themselves, and evidence is accepted exactly if some blocked run records it.

**Leases** (`Cluster`, `PilotLease`). A transition system in which others create, relabel, terminate
and remove objects between any two requests, identifiers are never reused, and a request may be
refused or lose its answer. The server keeps a ghost trace of all states; a bracketed call is related
to the states it ran through. A script gives the turns of the others, so a lemma about a method is a
statement over all interleavings.

**Topology arithmetic** (`Topology`, `Retention`). The edge generator's double loop, the number of edges that
survive truncation in closed form, and the retention and page checks of the report validator.

**Coverage debt** (`CoverageRanges`, `CoverageReport`, `TrackerHistory`, `StateJson`, `Markers`,
`TrackerRows`, `TrackerComment`, `TrackerLayout`, `TrackerCells`, `TrackerIssue`, `Tracker`,
`TrackerReport`, `TrackerReading`). Classified ranges, the report and its conservation
law, the state kept over a run of updates, and the comment that stores it, printed and parsed. A
reader who cuts its tables at the unescaped bars finds every number in its column. The round trip is proved for any layout whose pieces fit together, and the program's own wording is
proved to be such a layout, whose cells cannot bring a state marker into the comment of a built
report. The write request may be refused or lose its answer.

**Release ordering** (`SemVer`, `StableSort`, `Changelog`). The version key on strings, against the
precedence of section 11 of Semantic Versioning 2.0.0 stated on identifiers, and the changelog check,
which compares the headings with their stable descending sort.

**Runtime requirements** (`Requirements`). The line state machine of the export reader against an
index-based reading of its blocks, and the comparison with the component list.

**Test lanes** (`TestPartition`). The exact partition of the collected tests.

**Shutdown investigation** (`ShutdownWorld`, `ShutdownCleanup`, `ShutdownInvestigation`). Descendant
cleanup, one probe, and the staged investigation, on a clock in milliseconds whose waits, sleeps and
joins keep their limits.

## Where the code and its description part

- `_iter_redacted` is not one-shot replacement in chunks: its body is a leftmost scan and its tail a
  sequence of replacements. `OverlapExample`, `MarkerExample` and `OrderExample` give inputs;
  `StreamingExactly` gives the exact condition.
- A redacted stream can contain a secret that a marker completes. `ExposureExactly` says for which
  secrets, `MarkerCanCompleteSecret` gives an input with two.
- `_append_bounded_tail` with limit 0 keeps the whole chunk, because a slice from minus zero is the
  slice from the start: `AppendKeepsNewest`. The program's limits are positive.
- The retained-edge formula leaves out edges that wrap around the ring. `PredictionExact` says when
  it is right, and `HonestHighEdgeAccepted` when truthful evidence is accepted.
- `_measurement_is_better` prefers either side when exactly one has no statements, so a measurement
  without statements resets the high-water mark: `HistoryExact` says what is kept in every run,
  `EmptyMeasurementResets` gives a run that forgets.
- A comment whose summary contains a marker is written, but jams every further update: `Run` says so
  for every run. In a built report only the report marker can get there, and only through a path:
  `BuiltHarmless` is exact, `MarkedPathJams` gives a canonical path. A state marker needs a count with
  a line break, which only a hand-made report can have (`OneLineIsClean`, `HandMadeRow`).
- The namespace delete selects by label, not by identifier. A namespace without the labels is deleted
  exactly when the last creation or relabelling inside the window of that one request gave it others
  (`CleanupDeletesOwned`); `WindowReplacement` is a script on which that happens.
- The overall deadline of the investigation never cuts a stage short, since the stage limits add up
  to it: `StageFits`.

## Model

| member | source | states |
|---|---|---|
| RedactionBound.NormalizedSecrets | scripts/bounded_redact.py:17-18 | the result holds exactly the non-empty configured secrets, none twice, longest first |
| RedactionBound.RedactComplete | scripts/bounded_redact.py:21-24 | replacing secret by secret gives the one-shot form of the text |
| RedactionSpec.MatchInWindow | scripts/bounded_redact.py:44-52 | a match decided in the window of pending and chunk is the match on the whole remaining text |
| RedactionSpec.WindowStep | scripts/bounded_redact.py:48-58 | one scan step in a window that still fits the longest secret is a step of the scan of the whole text |
| RedactionStream.RedactedChunks.constructor | scripts/bounded_redact.py:27-42 | the output to come and the stop position are fixed by the text and the secrets alone |
| RedactionStream.RedactedChunks.ScanCandidate | scripts/bounded_redact.py:44-58 | scanning a candidate keeps the promise and leaves less than the longest secret; it yields nothing exactly when it consumes nothing |
| RedactionStream.RedactedChunks.Advance | scripts/bounded_redact.py:43-59 | after each chunk what is emitted and what is pending still complete to the streamed form of the whole text |
| RedactionStream.RedactedChunks.Finish | scripts/bounded_redact.py:62-63 | the tail goes through one-shot replacement, after which all of the streamed form is emitted |
| RedactionStream.RedactedChunks.Next | scripts/bounded_redact.py:27-63 | for any reads: when the generator is exhausted it has emitted the streamed form and stopped at the position the text determines; a non-positive chunk size is the only error; no yielded chunk is empty |
| RedactionSafety.StreamedKeeps | scripts/bounded_redact.py:43-63 | the output is the raw text with stretches replaced by markers: kept characters stay in order, and neighbours exactly when nothing was removed between them |
| RedactionSafety.StreamedErases | scripts/bounded_redact.py:43-63 | every occurrence of a secret in the raw text loses a character, also across chunks and across the end of the scanned body |
| RedactionSafety.OneShotErases | scripts/bounded_redact.py:21-24 | the same for one-shot replacement |
| RedactionSafety.StreamedCellsSpell | scripts/bounded_redact.py:43-63 | the cells with their origins spell the streamed output |
| RedactionSafety.ReplaceWhole | scripts/bounded_redact.py:21-24 | replacing a word that aligns with the marker nowhere cuts no marker |
| RedactionSafety.NoSecretSurvives | scripts/bounded_redact.py:21-63 | if no secret aligns with the marker, no secret is in the redacted output, streamed or one-shot |
| RedactionSafety.UnsharedSecretIsLost | scripts/bounded_redact.py:21-63 | a secret that shares no character with the marker is not in the output, even if other secrets break markers apart |
| RedactionExposure.AppearsExposed | scripts/bounded_redact.py:21-24 | a secret in its own redacted text overlaps a marker in agreement, and its part before the first marker was copied |
| RedactionExposure.ExposedAppears | scripts/bounded_redact.py:21-24 | an exposed secret appears in the redacted form of a text built from it |
| RedactionExposure.ExposureExactly | scripts/bounded_redact.py:21-63 | a secret redacted alone appears in some redacted stream if and only if it is exposed to the marker |
| RedactionSafety.MarkerCanCompleteSecret | scripts/bounded_redact.py:14-63 | the side condition is needed: a marker can complete a secret |
| RedactionRefinement.StreamingIsOneShot | scripts/bounded_redact.py:41-63 | without conflicts, and when no secret but the first aligns with the marker, streaming equals one-shot replacement of the whole text |
| RedactionRefinement.NeverOverlapHasNoConflict | scripts/bounded_redact.py:41-63 | secrets that overlap in no text have no conflict |
| RedactionRefinement.OneShotIsScan | scripts/bounded_redact.py:21-24 | under these conditions successive replacement is a leftmost-longest scan |
| RedactionRefinement.CopiedOrMarked | scripts/bounded_redact.py:44-58 | a scan's output copies the beginning of the text up to any length, or has a whole marker before it |
| RedactionRefinement.SingleSecretStreaming | scripts/bounded_redact.py:41-63 | one secret needs no side condition |
| RedactionRefinement.StreamingExactly | scripts/bounded_redact.py:41-63 | for secrets that align with the marker nowhere, none but the first having a later one as a prefix: streaming equals one-shot replacement on all texts if and only if no two conflict; the first of two secrets may align |
| RedactionRefinement.TwoSecretsExactly | scripts/bounded_redact.py:41-63 | two secrets need no prefix condition, and the longer one may align with the marker |
| RedactionRefinement.MarkerFreeExactly | scripts/bounded_redact.py:41-63 | secrets that share no character with the marker need no condition on alignment |
| RedactionPrefixes.ConflictWithoutDifference | scripts/bounded_redact.py:41-63 | the prefix condition is needed: four secrets that conflict, and yet streaming equals one-shot replacement on every text |
| RedactionRefinement.StartIsKept | scripts/bounded_redact.py:21-24 | on the separating text one-shot replacement never replaces at the start: it leaves a copy of the text up to a marker |
| RedactionRefinement.ConflictSeparates | scripts/bounded_redact.py:41-63 | any conflict gives a text on which the two differ: one starts with a marker, the other does not |
| RedactionRefinement.OverlapExample | scripts/bounded_redact.py:41-63 | the secrets "abc" and "xa" on "xabc" |
| RedactionRefinement.MarkerExample | scripts/bounded_redact.py:21-24 | a secret that occurs in the marker breaks the equality |
| RedactionRefinement.StreamIgnoresOrder | scripts/bounded_redact.py:17-63 | without conflicts the order of secrets of one length does not matter |
| RedactionRefinement.OrderExample | scripts/bounded_redact.py:17-63 | with a conflict it can |
| RedactionBound.BoundedShape | scripts/bounded_redact.py:79-89 | never more than the bound, untouched when it fits, otherwise the beginning, a newline and the notice filling the bound exactly |
| RedactionBound.CutShape | scripts/bounded_redact.py:79-90 | a text that does not fit, or whose source was cut, becomes as much of its beginning as fits, the last character turned into a newline, and the notice; a notice that does not fit is itself cut |
| RedactionBound.NoticeNamesBound | scripts/bounded_redact.py:82 | the notice is one line that gives the bound as its numeral |
| RedactionBound.CaptureSuffices | scripts/bounded_redact.py:112-126 | one character beyond the bound determines the bounded result |
| RedactionBound.RedactAndBound | scripts/bounded_redact.py:66-89 | the bounded form of the one-shot redaction; an error exactly for a non-positive bound |
| RedactionBound.Capture | scripts/bounded_redact.py:112-117 | what is kept is the beginning of what was emitted, and the flag says whether anything was dropped |
| RedactionBound.ReadRedactedBounded | scripts/bounded_redact.py:92-126 | stores at most the bound and one character, yet returns the bounded form of the whole redacted stream |
| RollingTail.AppendBoundedTail | scripts/kuberay_compiled_graph_pilot.py:270-279 | for a positive limit (or an empty chunk) the buffer holds the newest bytes of everything appended; with limit zero it holds the chunk |
| RollingTail.AppendKeepsNewest | scripts/kuberay_compiled_graph_pilot.py:270-279 | it holds the newest bytes if and only if the limit is positive or the chunk empty |
| RollingTail.DrainCommandStream | scripts/kuberay_compiled_graph_pilot.py:282-304 | the complete mode holds the longest prefix within the cap and flags exactly what exceeds it; the other holds the newest bytes; the stream is closed |
| RollingTail.BoundedPhaseOutput.Append | scripts/coverage_debt.py:98-105 | the tail is the newest bytes of everything appended and the count is its length |
| RollingTail.BoundedPhaseOutput.Consume | scripts/coverage_debt.py:107-119 | everything read is appended and the stream closed; a failing read leaves its message, with white space collapsed and cut to a thousand characters |
| RollingTail.BoundedPhaseOutput.MarkError | scripts/coverage_debt.py:121-125 | a later failure does not replace an earlier one |
| RollingTail.MessageMeans | scripts/coverage_debt.py:107-125 | a message is the start of the text with its white space collapsed, whole exactly if that has at most a thousand characters |
| RollingTail.BoundedPhaseOutput.Truncated | scripts/coverage_debt.py:805-820 | the count exceeds the tail exactly when something was dropped |
| RollingTail.TailsAgree | scripts/kuberay_compiled_graph_pilot.py:270-279 | after any chunks the pilot's buffer holds the newest bytes of their concatenation, as the phase output does |
| SharedMemory.ParseSemaphoreName | scripts/kuberay_compiled_graph_pilot.py:107-109 | a semaphore name parses back to its kind and pair |
| SharedMemory.PairIdMeans | scripts/kuberay_compiled_graph_pilot.py:107-109 | an identifier is two numerals around a dash, of at most ten and of sixteen to twenty digits |
| SharedMemory.SharedMemoryEntrySummary | scripts/kuberay_compiled_graph_pilot.py:3618-3687 | the loop's counters and pair table give the summary specified from the listing |
| SharedMemory.SummaryCounts | scripts/kuberay_compiled_graph_pilot.py:3618-3687 | the counts of the summary, as numbers of positions in the listing whose names are semaphores of either kind, of pairs, and of the rest |
| SharedMemory.SummaryMeans | scripts/kuberay_compiled_graph_pilot.py:3618-3687 | the counted pairs are the identifiers with a header and an object in the listing, and each digest is taken of the rows it is named for |
| SharedMemory.SummaryRevalidates | scripts/kuberay_compiled_graph_pilot.py:5301-5383 | every listing's summary meets every count equation of the retained validator, whose exclusivity flag equals the producer's |
| SharedMemory.RetainedMeans | scripts/kuberay_compiled_graph_pilot.py:5301-5383 | an accepted summary accounts for every entry, and its flag says that all entries form pairs |
| SharedMemory.RetainedIsRigid | scripts/kuberay_compiled_graph_pilot.py:5301-5383 | no single count of an accepted summary, nor its flag, can be changed |
| SharedMemory.FlagMeansPairs | scripts/kuberay_compiled_graph_pilot.py:3618-3687 | with distinct names the flag is set if and only if the directory is not empty and holds complete pairs only |
| Cleanup.AssessRuntimeCleanup | scripts/kuberay_compiled_graph_pilot.py:2668-2739 | the loop over the pods gives the assessment that AssessmentMeans describes, or its error |
| Cleanup.TotalsMean | scripts/kuberay_compiled_graph_pilot.py:2676-2739 | the assessed pods are the named pods, and a reason is given exactly when some pod gives it |
| Cleanup.AssessmentMeans | scripts/kuberay_compiled_graph_pilot.py:2668-2739 | an assessment is returned exactly for an unchanged set of pods with clean baselines; it is a success if and only if for every pod entry count, bytes and digest are equal before and after, available bytes fell by at most 1048576 and no child remains; each reason is given exactly when its condition fails for some pod; flags, totals and signed differences are those of the snapshots |
| CleanupClassification.FinalizeRuntimeCleanupAssessment | scripts/kuberay_compiled_graph_pilot.py:2742-2861 | the loops compute the specified classification of the recorded observations |
| BlockedExactly.StableExactly | scripts/kuberay_compiled_graph_pilot.py:2742-2861 | the record counts as stable if and only if it is a whole window in which only shared memory was left and every pod kept its complete pairs, the same ones, of which there was one |
| BlockedExactly.FinalizedExactly | scripts/kuberay_compiled_graph_pilot.py:2742-2861 | a failed last assessment becomes blocked if and only if the record is convincing in that sense, and otherwise gets one more reason; its window counts observations, wait and pairs |
| CleanupClassification.ObserveRuntimeCleanup | scripts/kuberay_compiled_graph_pilot.py:2878-2912 | captures follow the delays until one succeeds or the schedule ends; it fails only with the failure of assessing the next capture |
| CleanupClassification.HostCleanup | scripts/kuberay_compiled_graph_pilot.py:3209-3226 | the final capture is appended after the schedule's total wait and the whole record is classified |
| CleanupClassification.RowsAreFingerprints | scripts/kuberay_compiled_graph_pilot.py:2781-2849 | each row of the window is a fingerprint of a listed pod |
| BlockedEvidence.BlockedSchedule | scripts/kuberay_compiled_graph_pilot.py:2878-2912 | a blocked run made all five observations, none succeeded, and the waits were 0, 5, 20, 50, 50 |
| BlockedEvidence.BlockedPods | scripts/kuberay_compiled_graph_pilot.py:2781-2849 | every pod held two entries per pair in every observation, with one unchanging fingerprint |
| BlockedEvidence.BlockedHoldsSomePair | scripts/kuberay_compiled_graph_pilot.py:2742-2861 | some pod held at least one pair |
| BlockedEvidence.BlockedLeavesNoChild | scripts/kuberay_compiled_graph_pilot.py:2742-2861 | no pilot child process remained in any observation |
| BlockedEvidence.BlockedRevalidates | scripts/kuberay_compiled_graph_pilot.py:5661-5725 | the evidence of every blocked run whose snapshots were inspected passes the validator's schedule, snapshot and recomputation checks |
| BlockedExactly.EvidenceExactly | scripts/kuberay_compiled_graph_pilot.py:5661-5725 | the validator accepts evidence if and only if some run that was classified as blocked records it, with valid snapshots: it accepts nothing a host cannot have observed |
| Cluster.LiveThroughout | scripts/kuberay_compiled_graph_pilot.py:1847-1865 | an object seen live twice was live at every state between |
| Cluster.LabelsAreLastSet | scripts/kuberay_compiled_graph_pilot.py:2962-3049 | an object ends with the labels of the last action that created or relabelled it |
| Cluster.DeletesExactly | scripts/kuberay_compiled_graph_pilot.py:3003-3020 | an object that a delete request hits matches the selector if and only if its window was harmless |
| Cluster.Server.DeleteSelected | scripts/kuberay_compiled_graph_pilot.py:3003-3020 | one request with the selector; what it hits is determined by the state and the others' turns; it succeeds exactly if all its parts are answered |
| PilotLease.EnsureNamespace | scripts/kuberay_compiled_graph_pilot.py:1647-1720 | a lease is returned if and only if the token is valid, both requests are answered, the name is free after the others' first and second turn, and admission left labels with the profile and this token; then the namespace is the one this call created, live, with an identifier never used before; without a fault a valid token fails only against a namespace that is there |
| Cluster.Server.CreateResource | scripts/kuberay_compiled_graph_pilot.py:1679-1713 | creates exactly if the request is answered and the name free after the others' turn; what it stores is the requested object with the labels admission left, under a new identifier |
| PilotLease.AssertCurrentNamespaceLease | scripts/kuberay_compiled_graph_pilot.py:1723-1763 | the check succeeds if and only if the token is valid, the request is answered and the leased namespace is live and labelled in the state looked at |
| PilotLease.AssertCurrentRayClusterLease | scripts/kuberay_compiled_graph_pilot.py:1804-1845 | the same for the leased cluster object, which must be of the same run and bound to the leased namespace |
| PilotLease.EnterBoundary | scripts/kuberay_compiled_graph_pilot.py:1855-1857 | the namespace is checked before the cluster object; failure has a fault, mixed runs or a missing lease as its reason |
| PilotLease.LeaveBoundary | scripts/kuberay_compiled_graph_pilot.py:1860-1865 | after the call the cluster object is checked and then, whatever was found, the namespace |
| PilotLease.LiveBetween | scripts/kuberay_compiled_graph_pilot.py:1847-1865 | an object live at both checks is live at every state of the call between them |
| PilotLease.Bracketed | scripts/kuberay_compiled_graph_pilot.py:1847-1865 | a bracketed call that returns normally ran entirely in states where the leased objects were live, over all interleavings; it fails only for a fault, leases of different runs, or a state without the leased objects |
| PilotLease.CleanupDeletesOwned | scripts/kuberay_compiled_graph_pilot.py:2962-3049 | for every script of the others, a deleted namespace carries this run's labels if and only if the last setting of its labels inside the request's window did |
| PilotLease.CleanupNamespace | scripts/kuberay_compiled_graph_pilot.py:2962-3049 | it deletes what the state and script determine, owned exactly in harmless windows; a normal return means that nothing failed and the name was observed free, at once or after exactly one request for both labels against the matching lease; it fails only for a fault, a changed context or a name still taken |
| PilotLease.WindowReplacement | scripts/kuberay_compiled_graph_pilot.py:3003-3020 | a script on which cleanup deletes a replacement without this run's labels |
| Topology.Edges | scripts/benchmark_workflow_progress_preparation.py:430-440 | the nested loops yield the specified edges |
| Topology.HighEdgeIsSimple | scripts/benchmark_workflow_progress_preparation.py:430-440 | count times factor pairwise distinct edges without self-loops |
| Topology.ChainAt | scripts/benchmark_workflow_progress_preparation.py:430-440 | the sparse profile yields each node with its successor, in order, and nothing else |
| Topology.HighEdgeAt | scripts/benchmark_workflow_progress_preparation.py:430-440 | the high-edge profile yields, node by node, the next nodes around the ring in order |
| Topology.KeptHighEdges | scripts/benchmark_workflow_progress_preparation.py:1588-1602 | the surviving edges in closed form: the prediction and a triangular number for the edges that wrap around |
| Topology.PredictionExact | scripts/benchmark_workflow_progress_preparation.py:1588-1602 | the prediction is right if and only if the factor is at most the number of dropped nodes, and never too large |
| Topology.KeptChain | scripts/benchmark_workflow_progress_preparation.py:430-440 | the sparse profile keeps one edge fewer than nodes |
| Retention.PageCount | scripts/benchmark_workflow_progress_preparation.py:1627-1638 | any paging without empty or overfull pages lies between the validator's two bounds |
| Retention.HonestSparseAccepted | scripts/benchmark_workflow_progress_preparation.py:1588-1639 | truthful sparse evidence is always accepted |
| Retention.HonestHighEdgeAccepted | scripts/benchmark_workflow_progress_preparation.py:1588-1639 | truthful high-edge evidence is accepted if and only if nothing was dropped, nothing wraps around, or the edge limit lies below the prediction |
| Retention.SparseAcceptedExactly | scripts/benchmark_workflow_progress_preparation.py:1588-1639 | evidence of the sparse profile is accepted if and only if its counts, reasons and page numbers are those of the retained nodes and edges, with page counts between the least and the most possible |
| Retention.HighEdgeAcceptedExactly | scripts/benchmark_workflow_progress_preparation.py:1588-1639 | the same for the high-edge profile, with the predicted number of edges |
| Retention.VerdictMeans | scripts/benchmark_workflow_progress_preparation.py:1516-1639 | evidence that is not accepted gets the verdict of the first check that fails: cardinality, observation, shape, limits, retention, pages |
| CoverageRanges.LoadOverrides | scripts/coverage_debt.py:345-368 | a document is accepted if and only if its ranges are valid and pairwise disjoint; the overrides are its ranges by first line |
| CoverageRanges.ForLineIgnoresOrder | scripts/coverage_debt.py:158-162 | accepted overrides classify every line independently of their order |
| CoverageRanges.UncoveredRanges | scripts/coverage_debt.py:419-446 | the ranges expand to exactly the missing lines, are uniformly classified and maximal |
| CoverageRanges.CompressionUnique | scripts/coverage_debt.py:419-446 | there is only one such compression |
| CoverageRanges.RangesIncrease | scripts/coverage_debt.py:419-446 | the ranges of increasing lines are increasing and disjoint |
| CoverageRanges.LengthCountsLines | scripts/coverage_debt.py:439-446 | the range lengths count the lines |
| CoverageReport.SortedSetIs | scripts/coverage_debt.py:489-491 | the sorted set of lines is increasing and holds exactly the lines |
| CoverageReport.NormalizeMeans | scripts/coverage_debt.py:372-375 | a normalised path has a slash for each backslash and is otherwise the same |
| CoverageReport.DebtEntry | scripts/coverage_debt.py:473-499 | a file's entry is built exactly for acceptable files, with its own totals and compression; the error names the first check that fails |
| CoverageReport.BuildReport | scripts/coverage_debt.py:448-518 | the report is built if and only if the commit, the mode, the central configuration, every summary and all sums are valid, and an error names the first thing that is not; files with more missed lines come first, among equals the path that comes first by its first different character; their numbers are valid and their ranges together are as long as the missed-line total |
| TrackerHistory.CrossTransitive | scripts/coverage_debt.py:1272-1280 | the cross-multiplied comparison is transitive for positive statement counts |
| TrackerHistory.HistoryExact | scripts/coverage_debt.py:1430-1441 | after any run: current and previous are the last two measurements, best is the earliest best of the last stretch with (or without) statements |
| TrackerHistory.HighWater | scripts/coverage_debt.py:1272-1280 | while every measurement has statements, best is the earliest of the highest ratio of the whole run |
| TrackerHistory.ResumedContinues | scripts/coverage_debt.py:1430-1436 | a run resumed from what an earlier run left continues it |
| TrackerHistory.EmptyMeasurementResets | scripts/coverage_debt.py:1272-1280 | a measurement without statements makes a lower ratio count as best |
| Markers.CountSplit | scripts/coverage_debt.py:1255-1259 | occurrences add up over a cut that no occurrence straddles |
| Markers.SplitOnly | scripts/coverage_debt.py:1257-1259 | a marker counted once is where the text is split |
| Markers.SplitMeans | scripts/coverage_debt.py:1257-1259 | a text without the word is not split, any other at its first occurrence |
| StateJson.EncodingInjective | scripts/coverage_debt.py:1344-1347 | two valid states with the same serialised text are equal |
| StateJson.StateReads | scripts/coverage_debt.py:1344-1347 | the text has the version and each of the three measurements under its key |
| StateJson.ObjectReads | scripts/coverage_debt.py:1344-1347 | the text of a measurement has each field under its key |
| StateJson.TwoDecimalsMean | scripts/coverage_debt.py:399-416 | a percentage is one or two digits, a point and two digits, or one hundred |
| StateJson.RepositoryMeans | scripts/coverage_debt.py:1337-1342 | a repository is two names around a slash |
| StateJson.StateFlat | scripts/coverage_debt.py:1344-1367 | the serialised text of a valid state has no angle bracket |
| TrackerComment.CountInPieces | scripts/coverage_debt.py:1348-1371 | no marker lies across the cuts of a comment |
| TrackerComment.ReportMarkerOnce | scripts/coverage_debt.py:1337-1374 | a comment holds the report marker once, and as often again as the summary does |
| TrackerRows.RowIsOneLine | scripts/coverage_debt.py:520-521 | whatever a path and the ranges contain, the row of a file with one-line numbers is one line |
| TrackerRows.ValidatedIsOneLine | scripts/coverage_debt.py:399-416 | validated counts and percentages are one line |
| TrackerLayout.OneLineIsClean | scripts/coverage_debt.py:1292-1334 | the summary of one-line rows contains neither state marker |
| TrackerLayout.HandMadeRow | scripts/coverage_debt.py:1325-1330 | a count that is the end marker brings it into the summary |
| TrackerComment.RoundTrip | scripts/coverage_debt.py:1254-1269 | for every well-formed layout: parsing a rendered comment returns its state exactly when the summary contains neither state marker, and otherwise reports invalid markers |
| TrackerComment.ParseExactly | scripts/coverage_debt.py:1254-1269 | a state is parsed if and only if each marker is counted once and the text from the first start marker to the first end marker behind it decodes to a valid state of the program's version; each error has its exact cause |
| TrackerComment.Utf8BytesMeans | scripts/coverage_debt.py:1372-1374 | the size of a comment is the length of its UTF-8 form, section 3 of RFC 3629 |
| TrackerComment.RenderMeans | scripts/coverage_debt.py:1337-1374 | rendering fails exactly for an invalid repository and for a comment of more than 64000 bytes, each with its error, and otherwise gives the comment |
| Tracker.ProgramRoundTrip | scripts/coverage_debt.py:1254-1374 | every comment the program renders for one-line rows parses back to its state |
| TrackerReading.HeadReads | scripts/coverage_debt.py:1283-1362 | the lines under the titles show the current, the previous and the best measurement in this order, each with its link, counts and percentage in the columns so titled |
| TrackerReading.SummaryReads | scripts/coverage_debt.py:1292-1334 | below its head the summary has the row of each file, in order |
| TrackerReading.RowReads | scripts/coverage_debt.py:1325-1331 | cut at the bars that no backslash escapes, a row has path, numbers, percentage and ranges in their columns, whatever bars the path and the ranges contain |
| TrackerReading.BuiltReads | scripts/coverage_debt.py:1325-1331 | in the row of a listed file the columns hold numerals of the report's own numbers |
| TrackerReading.CellReads | scripts/coverage_debt.py:520-521 | every bar in a cell is escaped, and without the escapes the cell is the text with its white space collapsed |
| TrackerReading.WordsMean | scripts/coverage_debt.py:520-521 | white space ends a word, and any other character prolongs it or starts one |
| TrackerReading.LabelsMean | scripts/coverage_debt.py:1308-1321 | each label of the ranges stands once, in the order in which they show up |
| TrackerReading.DisplayReads | scripts/coverage_debt.py:439-446 | a range is shown as its one line, or as its first and last line around a dash |
| TrackerCells.SummaryHolds | scripts/coverage_debt.py:1292-1334 | no occurrence of the report marker crosses the border of a cell: the summary contains it if and only if the cell of a path or of labelled ranges does |
| TrackerCells.CellFixed | scripts/coverage_debt.py:520-521 | a cell of words set apart by single blanks, without a bar, stays as it is |
| Tracker.ProgramHarmless | scripts/coverage_debt.py:1292-1374 | for rows with one-line numbers without brackets a summary is harmless if and only if no cell of a path or of labelled ranges contains the report marker |
| TrackerReport.BuiltRow | scripts/coverage_debt.py:296-309 | labels and ranges of a built report hold no marker, because labels come from a fixed table |
| TrackerReport.BuiltHarmless | scripts/coverage_debt.py:448-517 | for the files of a built report the comment is harmless if and only if no path shows the report marker |
| TrackerReport.PathJams | scripts/coverage_debt.py:1325-1330 | a classified file whose path shows the marker is accepted, and every report built for it jams the tracker |
| TrackerReport.MarkedPathJams | scripts/coverage_debt.py:335-337 | a canonical path does so |
| TrackerLayout.StandardWellFormed | scripts/coverage_debt.py:1283-1374 | the program's markers, heading, summary and encoding meet the conditions of the round trip |
| Tracker.StandardIsSound | scripts/coverage_debt.py:1254-1374 | the program's wording, with a decoder that undoes its encoder, is fit for the tracker |
| Tracker.MarksReplace | scripts/coverage_debt.py:1411-1427 | how replacing one comment changes the number of markers |
| Tracker.RenderedHolds | scripts/coverage_debt.py:1437-1448 | a rendered comment of the bot holds its state, or jams if its summary contains a marker |
| TrackerIssue.FindTrackerIssue | scripts/coverage_debt.py:1377-1398 | found if and only if the trusted items have one marker in all, in an issue with a number |
| TrackerIssue.MarksOfMeans | scripts/coverage_debt.py:1384-1390 | only the occurrences in trusted items count |
| Tracker.Issue.FindMarked | scripts/coverage_debt.py:1411-1429 | the markers in the bot's comments, and a comment that has one |
| Tracker.Issue.Update | scripts/coverage_debt.py:1401-1448 | the rendering of the next state is appended, or replaces the body of the one marked comment, and all others stay; each error has its exact cause; from a held state it writes exactly for a valid repository and measurement whose comment fits, unless the request is refused, and then holds the next state or jams; jammed comments are never written; what is not written changes nothing |
| Tracker.SomeStatus | scripts/coverage_debt.py:1411-1436 | whatever comments an issue has, they hold no state, one state, or jam |
| Tracker.StatusUnique | scripts/coverage_debt.py:1411-1436 | and only one of these |
| Tracker.Issue.Run | scripts/coverage_debt.py:1401-1448 | over any run among the comments of others, on any issue: while no written report had a marker in its summary, exactly one marker remains and holds the state of the written updates, continued from the state held before, also when answers are lost; after one had, nothing is written |
| SemVer.KeyOfWritten | scripts/validate_release.py:100-111 | the key read from a written version is the key of its parts |
| SemVer.KeyIsGiven | scripts/validate_release.py:100-111 | a key is given if and only if the text begins with three numerals between points |
| SemVer.KeyOrder | scripts/validate_release.py:100-111 | keys are totally ordered |
| SemVer.NumberOrder | scripts/validate_release.py:105-110 | integers compare as numerals without leading zeros do |
| SemVer.TupleAgrees | scripts/validate_release.py:107-110 | comparing identifier tuples is the first-difference rule of section 11.4 |
| SemVer.KeyIsPrecedence | scripts/validate_release.py:100-111 | on valid versions keys order exactly as section 11 does, with words compared by their first different character, and are equal exactly up to the build part |
| Text.StringLessMeans | scripts/validate_release.py:107-111 | the string order: a proper prefix comes first, otherwise the first different character decides |
| StableSort.SortIsOrdered | scripts/validate_release.py:611 | the sorted form is a non-increasing rearrangement |
| StableSort.SortIsStable | scripts/validate_release.py:611 | ties keep their order |
| StableSort.SortIsFixed | scripts/validate_release.py:611-613 | a sequence is its own sorted form if and only if it is non-increasing |
| Changelog.HeadingHasKey | scripts/validate_release.py:19-23 | every version a heading can carry has a key |
| Changelog.CheckOrder | scripts/validate_release.py:601-613 | the order check for any total order of keys |
| Changelog.CheckHeadings | scripts/validate_release.py:601-613 | headings are accepted if and only if they are distinct and non-increasing; duplicates are reported first |
| Changelog.AcceptedDescend | scripts/validate_release.py:601-613 | accepted headings never rise in the standard's precedence, and strictly fall when none has a build part |
| Requirements.ExportReader.FinishRequirement | scripts/audit_runtime_dependencies.py:51-78 | closing a block exports its pin or reports it as the first refused block |
| Requirements.ExportReader.TakeLine | scripts/audit_runtime_dependencies.py:80-90 | after each line the reader holds the exports of the closed blocks and the text and hash of the open one |
| Requirements.ValidateExportedGraph | scripts/audit_runtime_dependencies.py:42-109 | accepted if and only if every header's block has a hash and a text that parses, without a URL, to one exact version without a wildcard, and the packages are complete; the result is the set of the canonical names and versions of those texts; the first block that lacks a parse, a pin or a hash gives its error, in that priority |
| Requirements.CheckNames | scripts/audit_runtime_dependencies.py:93-109 | the packages are complete: not empty, all roots, neither the project nor a stray auditor |
| Requirements.ValidateSbomGraph | scripts/audit_runtime_dependencies.py:112-147 | accepted if and only if every component is identified and both exports name the same packages; each error has its exact cause |
| Requirements.PackagesAreBlocks | scripts/audit_runtime_dependencies.py:42-109 | a package is exported if and only if it is the canonical name and version of a header's text, whose block has a hash |
| Requirements.SkippedMeans | scripts/audit_runtime_dependencies.py:80-83 | a line is skipped exactly if it is blank or its first other character is a number sign |
| Requirements.StripMeans | scripts/audit_runtime_dependencies.py:81-90 | stripping takes white space off both ends, and all of it |
| TestPartition.RequireUnique | scripts/test_suite_taxonomy.py:27-45 | identifiers are accepted if and only if they are unique |
| TestPartition.Claim | scripts/linux_test_plan.py:174-177 | a lane succeeds if and only if none of its tests has an owner |
| TestPartition.FreeIsDisjoint | scripts/linux_test_plan.py:174-177 | that is, if and only if it is disjoint from the lanes before it |
| TestPartition.CountsAddUp | scripts/linux_test_plan.py:178-192 | in a partition the lane sizes sum to the size of the selection |
| TestPartition.PartitionEvidence | scripts/linux_test_plan.py:161-192 | returns normally if and only if identifiers are unique and the lanes are non-empty, disjoint and jointly the reference selection; then the counts sum to the selected count; incompleteness is reported if and only if it is the only fault |
| ShutdownCleanup.CleanupOwned | scripts/investigate_pytest_shutdown.py:116-155 | ends within six seconds; looks for descendants and polls the launcher at least every fifty milliseconds; once the launcher has exited it asks for children to reap, and succeeds exactly when it is told that none is left; only found descendants are signalled, each at most once per signal and all at least once, none killed within three seconds; giving up means all were killed |
| ShutdownInvestigation.RunProbe | scripts/investigate_pytest_shutdown.py:158-218 | ends within its timeout and the ten-second reserve; the observation records what the world did: the process's own exit code unless disturbed, the timeout, an interrupt, the capture's outcome; it passes exactly if the process itself exited with 0, in time and undisturbed, with nothing left behind and the output captured |
| ShutdownInvestigation.PlanShape | scripts/investigate_pytest_shutdown.py:61-71 | forty import, five collection and eight Ray probes in stage order, all different, each with its recipe and timeout |
| ShutdownInvestigation.StageFits | scripts/investigate_pytest_shutdown.py:233-237 | a new stage always has its whole limit before the overall deadline |
| ShutdownInvestigation.ProgressStep | scripts/investigate_pytest_shutdown.py:235-249 | one probe that ends by the stage deadline keeps all earlier deadlines |
| ShutdownInvestigation.Investigate | scripts/investigate_pytest_shutdown.py:221-262 | ends within twenty minutes, each stage within its limit of its start, each probe granted the smaller of its timeout and what is left; complete if and only if every planned probe ran and passed, and then every process exited with 0; failed if and only if one did not, exhausted only inside a stage with nothing left |

## Left out

- `src/django_ray`: everything imported from it is a parameter or an opaque constant.
- Subprocesses, kubectl, docker, git, Ray, HTTP and files: their answers are inputs or steps of others.
- JSON, TOML and the requirement grammar: texts are parsed by functions given as parameters; JSON values of a wrong type are not modelled. Digests are functions of their content.
- Regular expressions that accept Unicode digits: the models accept the ASCII ones.
- RedactionRefinement.StreamingExactly: assumes that no secret but the first has a later one as a prefix; without that a conflict need not make a difference (RedactionPrefixes.ConflictWithoutDifference). Later secrets that align with the marker are not covered: RedactionRefinement.MarkerExample shows that they can break the equality.
- RedactionSafety.NoSecretSurvives: for several secrets the condition is sufficient only; RedactionExposure.ExposureExactly is exact for one. Both are about the redacted stream: secrets that occur in the truncation notice, and markers cut by the bound, are not covered.
- The command line of the redactor, with its own limits on secrets and reads.
- RollingTail.BoundedPhaseOutput.Consume: the lock is not modelled.
- CleanupClassification.HostCleanup: the bracketing lease checks around the final capture are in PilotLease; the two models are not combined.
- BlockedEvidence.BlockedRevalidates: the field-by-field shape checks of pods, images and contexts are not modelled.
- PilotLease.CleanupNamespace: an object whose labels are set inside the window of the delete request itself can be deleted unlabelled, because the request carries no identifier.
- Identifiers of Kubernetes objects are numbers, and the regular expression for them is not modelled.
- Retention.HonestHighEdgeAccepted: assumes that the first nodes in identifier order are retained; the preparation code that chooses them is not part of this model.
- Tracker.Issue.Update: pagination is not modelled, and reading the issues and comments is assumed to succeed.
- Requirements.ValidateExportedGraph: which of several missing roots is named in the message is left out.
- Changelog.CheckHeadings: dates, the Unreleased section and the tag comparison are left out.
- TestPartition.PartitionEvidence: the selection rules of a lane are a predicate on the test.
- ShutdownCleanup.CleanupOwned: an interrupt during the cleanup, which ends the program, is left out.
- ShutdownInvestigation.RunProbe: computation between waits takes no time, and failures to start the process or write the log are left out.
- Windows job objects, signal delivery and thread scheduling: foreign calls without shown semantics.
- The field-by-field validators of host targets, images, timing and readiness: many conjunctions, no proof of interest.
