/** A run classified as blocked by mutable-object semaphores is sound, and its
    record passes the validator. */
module BlockedEvidence {
  import opened Text
  import opened SharedMemory
  import opened Cleanup
  import opened CleanupClassification

  const EXPECTED_WAITS: seq<int> := [0, 5, 20, 50, 50]

  ghost predicate Blocked(before: PodTable, captures: Captures, observations: seq<Observation>, digest: RowDigest, a: Assessment)
    requires before.Valid()
  {
    && HostRun(before, captures, observations)
    && Finalize(before, observations, digest) == Success(a)
    && a.classification == Some(MutableObjectBlocked)
  }

  lemma BlockedIsStable(before: PodTable, captures: Captures, observations: seq<Observation>, digest: RowDigest, a: Assessment)
    requires before.Valid() && Blocked(before, captures, observations, digest, a)
    ensures Consistent(before, observations) && a.stable
    ensures forall pod | pod in before.order :: HasPod(observations, pod)
    ensures Stable(before, observations)
  {
    ConsistentPods(before, observations);
    SamePods(before, observations[|observations| - 1].pods, observations[|observations| - 1].assessment);
  }

  /** An early success or an early end of the schedule rules the blocker out, so
      a blocked run made every attempt and none succeeded. */
  lemma BlockedSchedule(before: PodTable, captures: Captures, observations: seq<Observation>, digest: RowDigest, a: Assessment)
    requires before.Valid() && Blocked(before, captures, observations, digest, a)
    ensures |observations| == |EXPECTED_WAITS|
    ensures forall i | 0 <= i < |EXPECTED_WAITS| ::
              && observations[i].cumulativeWait == EXPECTED_WAITS[i] && observations[i].attempt == i + 1
              && observations[i].waitBefore == (if i < 4 then RETRY_DELAYS[i] else 0)
              && (observations[i].finalCapture <==> i == 4)
              && !observations[i].assessment.success
  {
    BlockedIsStable(before, captures, observations, digest, a);
    var attempts := observations[..|observations| - 1];
    assert forall i | 0 <= i < |attempts| :: attempts[i] == observations[i];
    assert SharedMemoryOnly(attempts[|attempts| - 1].assessment);
    assert |attempts| == |RETRY_DELAYS|;
    WaitedExactly();
  }

  lemma WaitedExactly()
    ensures Waited(1) == 0 && Waited(2) == 5 && Waited(3) == 20 && Waited(4) == 50
  {
    assert Waited(0) == 0;
    assert Waited(1) == Waited(0) + RETRY_DELAYS[0];
    assert Waited(2) == Waited(1) + RETRY_DELAYS[1];
    assert Waited(3) == Waited(2) + RETRY_DELAYS[2];
    assert Waited(4) == Waited(3) + RETRY_DELAYS[3];
  }

  /** Every pod held, in every observation, the same complete pairs. */
  lemma BlockedPods(before: PodTable, captures: Captures, observations: seq<Observation>, digest: RowDigest, a: Assessment,
                    pod: string, i: nat)
    requires before.Valid() && Blocked(before, captures, observations, digest, a)
    requires pod in before.order && i < |observations|
    ensures HasPod(observations, pod)
    ensures HoldsPairs(MemoryAt(observations[i], pod), MemoryAt(observations[|observations| - 1], pod))
  {
    BlockedIsStable(before, captures, observations, digest, a);
    PodHoldsPairs(observations, pod, i);
  }

  /** At least one pod held at least one pair, in the last observation and so in
      every one. */
  lemma BlockedHoldsSomePair(before: PodTable, captures: Captures, observations: seq<Observation>, digest: RowDigest, a: Assessment)
    returns (pod: string)
    requires before.Valid() && Blocked(before, captures, observations, digest, a)
    ensures pod in before.order && HasPod(observations, pod)
    ensures var m := MemoryAt(observations[|observations| - 1], pod);
            m.semaphores.Some? && m.semaphores.value.pairCount > 0
  {
    BlockedIsStable(before, captures, observations, digest, a);
    pod := RowsHoldSomePair(observations, before.order);
  }

  lemma RowsHoldSomePair(observations: seq<Observation>, pods: seq<string>) returns (pod: string)
    requires observations != [] && forall pod | pod in pods :: HasPod(observations, pod) && PodStable(observations, pod)
    requires PairTotal(RowsOf(observations, pods)) != 0
    ensures pod in pods && HasPod(observations, pod)
    ensures var m := MemoryAt(observations[|observations| - 1], pod);
            m.semaphores.Some? && m.semaphores.value.pairCount > 0
  {
    SomePairs(RowsOf(observations, pods));
    var row :| row in RowsOf(observations, pods) && row.fingerprint.headerCount != 0;
    RowsAreFingerprints(observations, pods, row);
    pod := row.pod;
    PrintHoldsPair(observations, pod, row.fingerprint);
  }

  lemma PrintHoldsPair(observations: seq<Observation>, pod: string, fingerprint: Fingerprint)
    requires observations != [] && HasPod(observations, pod) && PodStable(observations, pod)
    requires fingerprint in Fingerprints(observations, pod) && fingerprint.headerCount != 0
    ensures var m := MemoryAt(observations[|observations| - 1], pod);
            m.semaphores.Some? && m.semaphores.value.pairCount > 0
  {
    FingerprintsOfAll(observations, pod);
    assert Recognized(MemoryAt(observations[|observations| - 1], pod));
  }

  lemma PodHoldsPairs(observations: seq<Observation>, pod: string, i: nat)
    requires HasPod(observations, pod) && PodStable(observations, pod) && i < |observations|
    ensures HoldsPairs(MemoryAt(observations[i], pod), MemoryAt(observations[|observations| - 1], pod))
  {
    FingerprintsOfAll(observations, pod);
    var last := |observations| - 1;
    assert Recognized(MemoryAt(observations[i], pod)) && Recognized(MemoryAt(observations[last], pod));
    assert Fingerprints(observations, pod)[i] == Fingerprints(observations, pod)[last];
  }

  lemma AssessedPod(before: PodTable, o: Observation, pod: string)
    requires before.Valid() && Assessed(before, o.pods, o.assessment) && pod in before.order
    ensures pod in before.rows && pod in o.pods.rows && !Refused(before.rows[pod], o.pods.rows[pod])
    ensures ChildrenRemaining !in o.assessment.reasons ==> o.pods.rows[pod].childCount == 0
  {
    SamePods(before, o.pods, o.assessment);
    TotalsMean(before.order, before.rows, o.pods.rows);
    var totals := TotalsOf(before.order, before.rows, o.pods.rows);
    if o.pods.rows[pod].childCount != 0 { assert ChildrenRemaining in ReasonsFor(totals.pods[pod]); }
  }

  /** No pilot child process remained in any observation. */
  lemma BlockedLeavesNoChild(before: PodTable, captures: Captures, observations: seq<Observation>, digest: RowDigest, a: Assessment,
                             pod: string, i: nat)
    requires before.Valid() && Blocked(before, captures, observations, digest, a)
    requires i < |observations| && pod in before.order
    ensures pod in observations[i].pods.rows && observations[i].pods.rows[pod].childCount == 0
  {
    BlockedIsStable(before, captures, observations, digest, a);
    assert SharedMemoryOnly(observations[i].assessment);
    AssessedPod(before, observations[i], pod);
  }

  // ----- the validator of blocked evidence -----

  datatype Evidence = Evidence(runtimeBefore: PodTable, runtimeAfter: PodTable, observations: seq<Observation>, claimed: Assessment)

  predicate ValidSnapshot(s: Snapshot) {
    ValidRetained(s.memory, SHARED_MEMORY_BYTES) && s.childCount == 0
  }

  predicate ValidSnapshots(pods: PodTable) {
    forall pod | pod in pods.rows :: ValidSnapshot(pods.rows[pod])
  }

  predicate ValidSchedule(observations: seq<Observation>) {
    && |observations| == |EXPECTED_WAITS|
    && forall i | 0 <= i < |EXPECTED_WAITS| ::
         && observations[i].attempt == i + 1
         && observations[i].cumulativeWait == EXPECTED_WAITS[i]
         && observations[i].waitBefore == (if i < 4 then RETRY_DELAYS[i] else 0)
         && observations[i].finalCapture == (i == 4)
  }

  ghost predicate ValidEvidence(e: Evidence, digest: RowDigest)
    requires e.runtimeBefore.Valid()
  {
    && e.observations != []
    && e.observations[|e.observations| - 1].pods.rows == e.runtimeAfter.rows
    && ValidSnapshots(e.runtimeBefore) && ValidSnapshots(e.runtimeAfter)
    && ValidSchedule(e.observations)
    && (forall i | 0 <= i < |e.observations| :: ValidSnapshots(e.observations[i].pods))
    && Finalize(e.runtimeBefore, e.observations, digest) == Success(e.claimed)
    && e.claimed.classification == Some(MutableObjectBlocked) && e.claimed.stable
  }

  /** The snapshot is what inspecting some directory listing gives. */
  ghost predicate Inspected(s: Snapshot, digest: Digest) {
    exists entries: seq<Entry>, total: int, available: int | 0 <= available <= total ::
      s.memory == MemoryOf(entries, total, available, digest)
  }

  lemma InspectedIsValid(s: Snapshot, digest: Digest)
    requires Inspected(s, digest) && s.childCount == 0 && s.memory.totalBytes == SHARED_MEMORY_BYTES
    requires forall c :: IsHexDigest(digest(c))
    ensures ValidSnapshot(s)
  {
    var entries: seq<Entry>, total: int, available: int :|
      0 <= available <= total && s.memory == MemoryOf(entries, total, available, digest);
    SummaryRevalidates(entries, available, digest);
  }

  lemma PodValid(before: PodTable, o: Observation, digest: Digest, pod: string)
    requires before.Valid() && Assessed(before, o.pods, o.assessment) && pod in before.order
    requires forall c :: IsHexDigest(digest(c))
    ensures pod in before.rows && pod in o.pods.rows
    ensures Inspected(before.rows[pod], digest) ==> ValidSnapshot(before.rows[pod])
    ensures Inspected(o.pods.rows[pod], digest) && SharedMemoryOnly(o.assessment) ==> ValidSnapshot(o.pods.rows[pod])
  {
    AssessedPod(before, o, pod);
    MaybeValid(before.rows[pod], digest);
    MaybeValid(o.pods.rows[pod], digest);
  }

  lemma MaybeValid(s: Snapshot, digest: Digest)
    requires forall c :: IsHexDigest(digest(c))
    ensures Inspected(s, digest) && s.childCount == 0 && s.memory.totalBytes == SHARED_MEMORY_BYTES ==> ValidSnapshot(s)
  {
    if Inspected(s, digest) && s.childCount == 0 && s.memory.totalBytes == SHARED_MEMORY_BYTES { InspectedIsValid(s, digest); }
  }

  lemma SnapshotsValid(before: PodTable, o: Observation, digest: Digest)
    requires before.Valid() && Assessed(before, o.pods, o.assessment) && SharedMemoryOnly(o.assessment)
    requires forall c :: IsHexDigest(digest(c))
    requires AllInspected(before, digest) && AllInspected(o.pods, digest)
    ensures ValidSnapshots(before) && ValidSnapshots(o.pods)
  {
    SamePods(before, o.pods, o.assessment);
    forall pod | pod in before.rows ensures ValidSnapshot(before.rows[pod]) && ValidSnapshot(o.pods.rows[pod]) {
      PodValid(before, o, digest, pod);
    }
  }

  ghost predicate AllInspected(pods: PodTable, digest: Digest) {
    forall pod | pod in pods.rows :: Inspected(pods.rows[pod], digest)
  }

  lemma BlockedSnapshotsValid(before: PodTable, captures: Captures, observations: seq<Observation>,
                              digest: RowDigest, contentDigest: Digest, a: Assessment, i: nat)
    requires before.Valid() && Blocked(before, captures, observations, digest, a) && i < |observations|
    requires forall c :: IsHexDigest(contentDigest(c))
    requires AllInspected(before, contentDigest) && AllInspected(observations[i].pods, contentDigest)
    ensures ValidSnapshots(before) && ValidSnapshots(observations[i].pods)
  {
    BlockedIsStable(before, captures, observations, digest, a);
    assert SharedMemoryOnly(observations[i].assessment);
    SnapshotsValid(before, observations[i], contentDigest);
  }

  /** Whatever the pods held, a run classified as blocked yields evidence the
      validator accepts, provided its snapshots come from the inspection. */
  lemma BlockedRevalidates(before: PodTable, captures: Captures, observations: seq<Observation>,
                           digest: RowDigest, contentDigest: Digest, a: Assessment)
    requires before.Valid() && Blocked(before, captures, observations, digest, a)
    requires forall c :: IsHexDigest(contentDigest(c))
    requires AllInspected(before, contentDigest)
    requires forall i | 0 <= i < |observations| :: AllInspected(observations[i].pods, contentDigest)
    ensures ValidEvidence(Evidence(before, observations[|observations| - 1].pods, observations, a), digest)
  {
    forall i | 0 <= i < |observations| ensures ValidSnapshots(before) && ValidSnapshots(observations[i].pods) {
      BlockedSnapshotsValid(before, captures, observations, digest, contentDigest, a, i);
    }
    assert ValidSchedule(observations) && a.stable by {
      BlockedSchedule(before, captures, observations, digest, a);
      BlockedIsStable(before, captures, observations, digest, a);
    }
  }
}
