/** When a run is classified as blocked, and when the validator accepts its evidence, in
    terms of what the snapshots show. */
module BlockedExactly {
  import opened Text
  import opened SharedMemory
  import opened Cleanup
  import opened CleanupClassification
  import opened BlockedEvidence

  /** The directory holds complete semaphore pairs and nothing else. */
  predicate OnlyPairs(m: Memory) {
    && m.semaphores.Some?
    && var s := m.semaphores.value;
    && 0 <= s.pairCount == s.headerCount == s.objectCount && s.unpairedEntryCount == s.otherEntryCount == 0
    && m.entryCount == s.pairedEntryCount == s.pairCount + s.pairCount
    && (m.entryCount != 0 ==> s.fullyPairedAndExclusive)
  }

  /** The same pairs: equal counts, equal identities. */
  predicate SamePairs(m: Memory, n: Memory) {
    && m.semaphores.Some? && n.semaphores.Some? && m.entryCount == n.entryCount
    && var s, t := m.semaphores.value, n.semaphores.value;
    && s.headerCount == t.headerCount && s.objectCount == t.objectCount
    && s.pairDigest == t.pairDigest && s.semaphoreDigest == t.semaphoreDigest
  }

  /** Four attempts with the waits of the schedule, and nothing waited after them. */
  predicate WholeWindow(observations: seq<Observation>) {
    && |observations| >= 4
    && observations[0].cumulativeWait == 0 && observations[1].cumulativeWait == 5
    && observations[2].cumulativeWait == 20 && observations[3].cumulativeWait == 50
    && observations[|observations| - 1].cumulativeWait == 50
  }

  /** Some pod's entries are not as before, and no pod has a child left. */
  ghost predicate OnlyMemoryLeft(before: PodTable, pods: PodTable)
    requires before.Valid() && before.rows.Keys == pods.rows.Keys
  {
    && (exists pod | pod in before.order :: !SameEntries(before.rows[pod], pods.rows[pod]))
    && (forall pod | pod in before.order :: pods.rows[pod].childCount == 0)
  }

  /** The pod held the same pairs, and nothing else, in every observation. */
  ghost predicate KeptPairs(observations: seq<Observation>, pod: string)
    requires observations != [] && HasPod(observations, pod)
  {
    forall i | 0 <= i < |observations| ::
      OnlyPairs(MemoryAt(observations[i], pod))
      && SamePairs(MemoryAt(observations[i], pod), MemoryAt(observations[|observations| - 1], pod))
  }

  ghost predicate HoldsPair(observations: seq<Observation>, pod: string)
    requires observations != [] && HasPod(observations, pod)
  {
    var m := MemoryAt(observations[|observations| - 1], pod);
    m.semaphores.Some? && m.semaphores.value.pairCount > 0
  }

  /** What convinces the classification that the residue is the runtime's semaphores. */
  ghost predicate Convincing(before: PodTable, observations: seq<Observation>)
    requires before.Valid() && observations != [] && Consistent(before, observations)
    requires forall pod | pod in before.order :: HasPod(observations, pod)
    requires forall i | 0 <= i < |observations| :: before.rows.Keys == observations[i].pods.rows.Keys
  {
    && WholeWindow(observations) && AllOnlyMemoryLeft(before, observations) && AllKept(observations, before.order)
    && (exists pod | pod in before.order :: HoldsPair(observations, pod))
  }

  lemma WindowMeans(observations: seq<Observation>)
    ensures CompleteWindow(observations) <==> WholeWindow(observations)
  {
    assert |REQUIRED_WAITS| == 4 && REQUIRED_WAITS[0] == 0 && REQUIRED_WAITS[1] == 5 && REQUIRED_WAITS[2] == 20 && REQUIRED_WAITS[3] == 50;
  }

  lemma ObservationMeans(before: PodTable, o: Observation)
    requires before.Valid() && Assessed(before, o.pods, o.assessment)
    ensures before.rows.Keys == o.pods.rows.Keys
    ensures SharedMemoryOnly(o.assessment) <==> OnlyMemoryLeft(before, o.pods)
  {
    SamePods(before, o.pods, o.assessment);
    AssessmentMeans(before, o.pods);
    OnlyMemoryReasons(o.assessment.reasons);
  }

  lemma OnlyMemoryReasons(reasons: set<Reason>)
    ensures reasons <= {EntriesNotRestored, AvailableNotRestored} <==> ChildrenRemaining !in reasons && ResidualNotStable !in reasons
  {
    forall reason | reason in reasons
      ensures reason == EntriesNotRestored || reason == AvailableNotRestored || reason == ChildrenRemaining || reason == ResidualNotStable
    {
    }
  }

  lemma RecognizedMeans(m: Memory)
    ensures Recognized(m) <==> OnlyPairs(m)
  {
  }

  lemma PrintsMean(m: Memory, n: Memory)
    requires m.semaphores.Some? && n.semaphores.Some?
    ensures FingerprintOf(m) == FingerprintOf(n) <==> SamePairs(m, n)
  {
  }

  lemma PodMeans(observations: seq<Observation>, pod: string)
    requires observations != [] && HasPod(observations, pod)
    ensures PodStable(observations, pod) <==> KeptPairs(observations, pod)
  {
    forall i | 0 <= i < |observations|
      ensures Recognized(MemoryAt(observations[i], pod)) <==> OnlyPairs(MemoryAt(observations[i], pod))
    {
      RecognizedMeans(MemoryAt(observations[i], pod));
    }
    if forall i | 0 <= i < |observations| :: OnlyPairs(MemoryAt(observations[i], pod)) {
      FingerprintsOfAll(observations, pod);
      var last := |observations| - 1;
      forall i | 0 <= i < |observations|
        ensures Fingerprints(observations, pod)[i] == Fingerprints(observations, pod)[last]
           <==> SamePairs(MemoryAt(observations[i], pod), MemoryAt(observations[last], pod))
      {
        assert OnlyPairs(MemoryAt(observations[i], pod)) && OnlyPairs(MemoryAt(observations[last], pod));
        PrintsMean(MemoryAt(observations[i], pod), MemoryAt(observations[last], pod));
      }
    }
  }

  function PairsIn(m: Memory): int { if m.semaphores.Some? then m.semaphores.value.pairCount else 0 }

  /** The pairs the pods hold in the last observation. */
  ghost function PairSum(observations: seq<Observation>, pods: seq<string>): int
    requires observations != [] && forall pod | pod in pods :: HasPod(observations, pod)
  {
    if pods == [] then 0
    else
      var pod := pods[|pods| - 1];
      assert pod in pods && HasPod(observations, pod);
      PairSum(observations, pods[..|pods| - 1]) + PairsIn(MemoryAt(observations[|observations| - 1], pod))
  }

  lemma RowMeans(observations: seq<Observation>, pod: string)
    requires observations != [] && HasPod(observations, pod) && KeptPairs(observations, pod)
    ensures |RowFor(observations, pod)| == 1
    ensures RowFor(observations, pod)[0].fingerprint.headerCount == PairsIn(MemoryAt(observations[|observations| - 1], pod)) >= 0
  {
    var last := |observations| - 1;
    PodMeans(observations, pod);
    assert OnlyPairs(MemoryAt(observations[last], pod));
    forall i | 0 <= i < |observations| ensures MemoryAt(observations[i], pod).semaphores.Some? {
      assert OnlyPairs(MemoryAt(observations[i], pod));
    }
    FingerprintsOfAll(observations, pod);
  }

  lemma PairTotalAppend(rows: seq<Row>, row: Row)
    ensures PairTotal(rows + [row]) == PairTotal(rows) + row.fingerprint.headerCount
  {
    assert (rows + [row])[..|rows|] == rows;
  }

  ghost predicate AllKept(observations: seq<Observation>, pods: seq<string>)
    requires observations != [] && forall pod | pod in pods :: HasPod(observations, pod)
  {
    forall pod | pod in pods :: KeptPairs(observations, pod)
  }

  lemma {:induction false} PairTotalMeans(observations: seq<Observation>, pods: seq<string>)
    requires observations != [] && (forall pod | pod in pods :: HasPod(observations, pod)) && AllKept(observations, pods)
    ensures PairTotal(RowsOf(observations, pods)) == PairSum(observations, pods)
  {
    if pods != [] {
      var init, pod := pods[..|pods| - 1], pods[|pods| - 1];
      PairTotalMeans(observations, init);
      RowMeans(observations, pod);
      var row := RowFor(observations, pod)[0];
      assert RowFor(observations, pod) == [row];
      PairTotalAppend(RowsOf(observations, init), row);
    }
  }

  lemma {:induction false} PairSumMeans(observations: seq<Observation>, pods: seq<string>)
    requires observations != [] && (forall pod | pod in pods :: HasPod(observations, pod)) && AllKept(observations, pods)
    ensures PairSum(observations, pods) >= 0
    ensures PairSum(observations, pods) > 0 <==> exists pod | pod in pods :: HoldsPair(observations, pod)
  {
    if pods != [] {
      var init, pod := pods[..|pods| - 1], pods[|pods| - 1];
      assert pods == init + [pod];
      PairSumMeans(observations, init);
      RowMeans(observations, pod);
      var m := MemoryAt(observations[|observations| - 1], pod);
      assert HoldsPair(observations, pod) <==> PairsIn(m) > 0;
      if p :| p in pods && HoldsPair(observations, p) { assert p in init || p == pod; }
      if p :| p in init && HoldsPair(observations, p) { assert p in pods; }
    }
  }

  ghost predicate AllMemoryOnly(observations: seq<Observation>) {
    forall i | 0 <= i < |observations| :: SharedMemoryOnly(observations[i].assessment)
  }

  ghost predicate AllOnlyMemoryLeft(before: PodTable, observations: seq<Observation>)
    requires before.Valid() && forall i | 0 <= i < |observations| :: before.rows.Keys == observations[i].pods.rows.Keys
  {
    forall i | 0 <= i < |observations| :: OnlyMemoryLeft(before, observations[i].pods)
  }

  lemma ObservationsMean(before: PodTable, observations: seq<Observation>)
    requires before.Valid() && Consistent(before, observations)
    ensures forall i | 0 <= i < |observations| :: before.rows.Keys == observations[i].pods.rows.Keys
    ensures AllMemoryOnly(observations) <==> AllOnlyMemoryLeft(before, observations)
  {
    forall i | 0 <= i < |observations|
      ensures before.rows.Keys == observations[i].pods.rows.Keys
      ensures SharedMemoryOnly(observations[i].assessment) <==> OnlyMemoryLeft(before, observations[i].pods)
    {
      ObservationMeans(before, observations[i]);
    }
  }

  lemma PodsMean(observations: seq<Observation>, pods: seq<string>)
    requires observations != [] && forall pod | pod in pods :: HasPod(observations, pod)
    ensures AllStable(observations, pods) <==> AllKept(observations, pods)
  {
    forall pod | pod in pods ensures PodStable(observations, pod) <==> KeptPairs(observations, pod) {
      PodMeans(observations, pod);
    }
  }

  lemma PairsMean(observations: seq<Observation>, pods: seq<string>)
    requires observations != [] && (forall pod | pod in pods :: HasPod(observations, pod)) && AllKept(observations, pods)
    ensures PairTotal(RowsOf(observations, pods)) != 0 <==> exists pod | pod in pods :: HoldsPair(observations, pod)
  {
    PairTotalMeans(observations, pods);
    PairSumMeans(observations, pods);
  }

  /** The record proves stable pairs if and only if it is convincing. */
  lemma StableExactly(before: PodTable, observations: seq<Observation>)
    requires before.Valid() && observations != [] && Consistent(before, observations)
    ensures forall pod | pod in before.order :: HasPod(observations, pod)
    ensures forall i | 0 <= i < |observations| :: before.rows.Keys == observations[i].pods.rows.Keys
    ensures Stable(before, observations) <==> Convincing(before, observations)
  {
    ConsistentPods(before, observations);
    ObservationsMean(before, observations);
    StableInParts(before, observations);
    WindowMeans(observations);
    PodsMean(observations, before.order);
    if AllKept(observations, before.order) { PairsMean(observations, before.order); }
  }

  ghost predicate AllStable(observations: seq<Observation>, pods: seq<string>)
    requires forall pod | pod in pods :: HasPod(observations, pod)
  {
    forall pod | pod in pods :: PodStable(observations, pod)
  }

  lemma StableInParts(before: PodTable, observations: seq<Observation>)
    requires forall pod | pod in before.order :: HasPod(observations, pod)
    ensures Stable(before, observations) <==>
              && CompleteWindow(observations) && AllMemoryOnly(observations) && AllStable(observations, before.order)
              && PairTotal(RowsOf(observations, before.order)) != 0
  {
  }

  /** The fields the conclusion keeps, and those it adds. */
  ghost predicate Concludes(a: Assessment, last: Assessment, observations: nat, waited: int, stable: bool) {
    && a.stable == stable && (a.classification == if stable then Some(MutableObjectBlocked) else last.classification)
    && a.reasons == last.reasons + (if stable then {} else {ResidualNotStable})
    && a.success == last.success && a.pods == last.pods && a.childrenRemaining == last.childrenRemaining
    && a.entriesRestored == last.entriesRestored && a.identityRestored == last.identityRestored
    && a.availableRestored == last.availableRestored
    && a.window.Some? && a.window.value.observationCount == observations && a.window.value.waitSeconds == waited
  }

  lemma ConcludedMeans(last: Assessment, observations: nat, waited: int, stable: bool, rows: seq<Row>, digest: RowDigest)
    ensures Concludes(Concluded(last, observations, waited, stable, rows, digest), last, observations, waited, stable)
    ensures var window := Concluded(last, observations, waited, stable, rows, digest).window;
            window.Some? && window.value.pairCount == PairTotal(rows) && window.value.fingerprintDigest == digest(rows)
  {
  }

  /** The final assessment is the last one, unless that failed: then it is stable, and
      blocked, if and only if the record is convincing, and otherwise names the unstable
      residue as one more reason; the window counts what was observed, and in a stable
      one the pairs the pods hold. */
  lemma FinalizedExactly(before: PodTable, observations: seq<Observation>, digest: RowDigest)
    requires before.Valid() && observations != [] && Consistent(before, observations)
    ensures forall pod | pod in before.order :: HasPod(observations, pod)
    ensures forall i | 0 <= i < |observations| :: before.rows.Keys == observations[i].pods.rows.Keys
    ensures Finalize(before, observations, digest).Success?
    ensures var a, last := Finalize(before, observations, digest).value, observations[|observations| - 1];
            if last.assessment.success then a == last.assessment
            else
              && Concludes(a, last.assessment, |observations|, last.cumulativeWait, Convincing(before, observations))
              && a.window.value.fingerprintDigest == digest(RowsOf(observations, before.order))
              && (a.stable ==> a.window.value.pairCount == PairSum(observations, before.order))
  {
    StableExactly(before, observations);
    var last := observations[|observations| - 1];
    ConcludedMeans(last.assessment, |observations|, last.cumulativeWait, Stable(before, observations), RowsOf(observations, before.order), digest);
    if AllKept(observations, before.order) { PairTotalMeans(observations, before.order); }
  }

  // ----- accepted evidence -----

  lemma ClaimedIsStable(before: PodTable, observations: seq<Observation>, digest: RowDigest, a: Assessment)
    requires before.Valid() && Finalize(before, observations, digest) == Success(a) && a.classification == Some(MutableObjectBlocked)
    ensures observations != [] && Consistent(before, observations)
    ensures forall i | 0 <= i < |observations| :: !observations[i].assessment.success
  {
    var last := observations[|observations| - 1];
    if Consistent(before, observations) {
      FinalizedExactly(before, observations, digest);
      StableExactly(before, observations);
      NeverBlocked(before, last);
      ObservationsMean(before, observations);
    }
  }

  /** No observation is classified as blocked by itself. */
  lemma NeverBlocked(before: PodTable, o: Observation)
    requires before.Valid() && Assessed(before, o.pods, o.assessment)
    ensures o.assessment.classification != Some(MutableObjectBlocked)
  {
    SamePods(before, o.pods, o.assessment);
    AssessmentMeans(before, o.pods);
  }

  lemma ScheduleIsAttempted(before: PodTable, observations: seq<Observation>, captures: Captures)
    requires before.Valid() && Consistent(before, observations) && ValidSchedule(observations)
    requires forall i | 0 <= i < |observations| :: !observations[i].assessment.success
    requires forall i: nat | i < |observations| :: captures(i) == observations[i].pods
    ensures Attempted(before, captures, observations[..4])
  {
    WaitedExactly();
    var attempts := observations[..4];
    forall i | 0 <= i < 4
      ensures attempts[i].cumulativeWait == Waited(i + 1) && attempts[i].waitBefore == RETRY_DELAYS[i]
    {
      assert attempts[i] == observations[i];
      assert EXPECTED_WAITS[i] == Waited(i + 1);
    }
  }

  lemma ScheduleIsHostRun(before: PodTable, observations: seq<Observation>, captures: Captures)
    requires before.Valid() && Consistent(before, observations) && ValidSchedule(observations)
    requires Attempted(before, captures, observations[..4])
    ensures HostRun(before, captures, observations)
  {
    WaitedExactly();
    assert observations[..4] == observations[..|observations| - 1];
    assert EXPECTED_WAITS[4] == 50;
  }

  lemma AcceptedIsBlocked(e: Evidence, digest: RowDigest) returns (captures: Captures)
    requires e.runtimeBefore.Valid() && ValidEvidence(e, digest)
    ensures Blocked(e.runtimeBefore, captures, e.observations, digest, e.claimed)
  {
    captures := i => if 0 <= i < |e.observations| then e.observations[i].pods else e.runtimeBefore;
    ClaimedIsStable(e.runtimeBefore, e.observations, digest, e.claimed);
    ScheduleIsAttempted(e.runtimeBefore, e.observations, captures);
    ScheduleIsHostRun(e.runtimeBefore, e.observations, captures);
  }

  lemma BlockedIsScheduled(before: PodTable, captures: Captures, observations: seq<Observation>, digest: RowDigest, a: Assessment)
    requires before.Valid() && Blocked(before, captures, observations, digest, a)
    ensures ValidSchedule(observations) && a.stable && observations != []
  {
    BlockedSchedule(before, captures, observations, digest, a);
    BlockedIsStable(before, captures, observations, digest, a);
  }

  lemma LastIsAfter(e: Evidence)
    requires e.observations != [] && e.observations[|e.observations| - 1].pods.rows == e.runtimeAfter.rows
    requires forall i | 0 <= i < |e.observations| :: ValidSnapshots(e.observations[i].pods)
    ensures ValidSnapshots(e.runtimeAfter)
  {
    assert ValidSnapshots(e.observations[|e.observations| - 1].pods);
  }

  /** Evidence is accepted if and only if some run records it, that was classified as
      blocked, with valid snapshots: the validator accepts nothing a host cannot have
      observed. */
  lemma EvidenceExactly(e: Evidence, digest: RowDigest)
    requires e.runtimeBefore.Valid()
    ensures ValidEvidence(e, digest) <==>
              && (exists captures :: Blocked(e.runtimeBefore, captures, e.observations, digest, e.claimed))
              && e.observations[|e.observations| - 1].pods.rows == e.runtimeAfter.rows
              && ValidSnapshots(e.runtimeBefore) && (forall i | 0 <= i < |e.observations| :: ValidSnapshots(e.observations[i].pods))
  {
    if ValidEvidence(e, digest) {
      var captures := AcceptedIsBlocked(e, digest);
    }
    if captures :| Blocked(e.runtimeBefore, captures, e.observations, digest, e.claimed) {
      BlockedIsScheduled(e.runtimeBefore, captures, e.observations, digest, e.claimed);
      if e.observations[|e.observations| - 1].pods.rows == e.runtimeAfter.rows
         && forall i | 0 <= i < |e.observations| :: ValidSnapshots(e.observations[i].pods) { LastIsAfter(e); }
    }
  }
}
