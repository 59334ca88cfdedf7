/** scripts/kuberay_compiled_graph_pilot.py: the retried observation of the
    cleanup, its final classification, and the validator that recomputes it. */
module CleanupClassification {
  import opened Text
  import opened SharedMemory
  import opened Cleanup

  datatype Observation = Observation(
    attempt: int, finalCapture: bool, waitBefore: int, cumulativeWait: int, pods: PodTable, assessment: Assessment)

  datatype Fingerprint = Fingerprint(
    entryCount: int, headerCount: int, objectCount: int, pairDigest: string, semaphoreDigest: string)

  datatype Row = Row(pod: string, fingerprint: Fingerprint)

  type RowDigest = seq<Row> -> string

  predicate SharedMemoryOnly(a: Assessment) {
    !a.success && EntriesNotRestored in a.reasons && a.reasons <= {EntriesNotRestored, AvailableNotRestored}
  }

  /** Every entry of the pod belongs to a complete semaphore pair, as far as the
      summary's counts say. */
  predicate Recognized(m: Memory) {
    && m.semaphores.Some?
    && var s := m.semaphores.value;
    && s.pairCount >= 0 && s.headerCount == s.pairCount && s.objectCount == s.pairCount
    && s.pairedEntryCount == s.pairCount * 2 && s.unpairedEntryCount == 0 && s.otherEntryCount == 0
    && m.entryCount == s.pairCount * 2
    && (m.entryCount == 0 || s.fullyPairedAndExclusive)
  }

  function FingerprintOf(m: Memory): Fingerprint
    requires m.semaphores.Some?
  {
    var s := m.semaphores.value;
    Fingerprint(m.entryCount, s.headerCount, s.objectCount, s.pairDigest, s.semaphoreDigest)
  }

  ghost predicate Answers(before: PodTable, pods: PodTable, r: Result<Assessment, PilotError>)
    requires before.Valid()
  {
    r == Assess(before, pods)
  }

  /** Assessing the snapshots gives `a`. Folded until Answers names the answer. */
  ghost predicate Assessed(before: PodTable, pods: PodTable, a: Assessment)
    requires before.Valid()
  {
    forall r | Answers(before, pods, r) :: r == Success(a)
  }

  lemma AssessedBy(before: PodTable, pods: PodTable, r: Result<Assessment, PilotError>, a: Assessment)
    requires before.Valid() && r == Assess(before, pods)
    ensures Assessed(before, pods, a) <==> r == Success(a)
  {
    assert Answers(before, pods, r);
  }

  lemma SamePods(before: PodTable, pods: PodTable, a: Assessment)
    requires before.Valid() && Assessed(before, pods, a)
    ensures Assess(before, pods) == Success(a) && before.rows.Keys == pods.rows.Keys
  {
    assert Answers(before, pods, Assess(before, pods));
  }

  /** The observations' assessments are what assessing their snapshots gives. */
  ghost predicate Consistent(before: PodTable, observations: seq<Observation>)
    requires before.Valid()
  {
    forall i | 0 <= i < |observations| :: Assessed(before, observations[i].pods, observations[i].assessment)
  }

  lemma ConsistentPods(before: PodTable, observations: seq<Observation>)
    requires before.Valid() && Consistent(before, observations)
    ensures forall pod | pod in before.order :: HasPod(observations, pod)
  {
    forall i | 0 <= i < |observations| ensures before.rows.Keys == observations[i].pods.rows.Keys {
      SamePods(before, observations[i].pods, observations[i].assessment);
    }
  }

  predicate CompleteWindow(observations: seq<Observation>) {
    && |observations| >= |REQUIRED_WAITS|
    && (forall i | 0 <= i < |REQUIRED_WAITS| :: observations[i].cumulativeWait == REQUIRED_WAITS[i])
    && observations[|observations| - 1].cumulativeWait == REQUIRED_WAITS[|REQUIRED_WAITS| - 1]
  }

  ghost predicate HasPod(observations: seq<Observation>, pod: string) {
    forall i | 0 <= i < |observations| :: pod in observations[i].pods.rows
  }

  function MemoryAt(o: Observation, pod: string): Memory
    requires pod in o.pods.rows
  {
    o.pods.rows[pod].memory
  }

  /** The fingerprints of one pod, observation by observation. */
  function Fingerprints(observations: seq<Observation>, pod: string): seq<Fingerprint>
    requires HasPod(observations, pod)
  {
    if observations == [] then []
    else
      var m := MemoryAt(observations[|observations| - 1], pod);
      Fingerprints(observations[..|observations| - 1], pod) + if m.semaphores.Some? then [FingerprintOf(m)] else []
  }

  predicate Uniform(prints: seq<Fingerprint>) {
    prints != [] && forall i | 0 <= i < |prints| :: prints[i] == prints[|prints| - 1]
  }

  /** One row for each pod whose fingerprint never changed. */
  function RowsOf(observations: seq<Observation>, pods: seq<string>): seq<Row>
    requires forall pod | pod in pods :: HasPod(observations, pod)
  {
    if pods == [] then []
    else RowsOf(observations, pods[..|pods| - 1]) + RowFor(observations, pods[|pods| - 1])
  }

  function RowFor(observations: seq<Observation>, pod: string): seq<Row>
    requires HasPod(observations, pod)
  {
    var prints := Fingerprints(observations, pod);
    if Uniform(prints) then [Row(pod, prints[|prints| - 1])] else []
  }

  function PairTotal(rows: seq<Row>): int {
    if rows == [] then 0 else PairTotal(rows[..|rows| - 1]) + rows[|rows| - 1].fingerprint.headerCount
  }

  predicate PodStable(observations: seq<Observation>, pod: string)
    requires HasPod(observations, pod)
  {
    && (forall i | 0 <= i < |observations| :: Recognized(MemoryAt(observations[i], pod)))
    && Uniform(Fingerprints(observations, pod))
  }

  ghost predicate Stable(before: PodTable, observations: seq<Observation>)
    requires forall pod | pod in before.order :: HasPod(observations, pod)
  {
    && CompleteWindow(observations)
    && (forall i | 0 <= i < |observations| :: SharedMemoryOnly(observations[i].assessment))
    && (forall pod | pod in before.order :: PodStable(observations, pod))
    && PairTotal(RowsOf(observations, before.order)) != 0
  }

  function Concluded(last: Assessment, observations: nat, waited: int, stable: bool, rows: seq<Row>, digest: RowDigest): Assessment {
    var summary := last.(stable := stable, window := Some(Window(observations, waited, PairTotal(rows), digest(rows))));
    if stable then summary.(classification := Some(MutableObjectBlocked))
    else summary.(reasons := last.reasons + {ResidualNotStable})
  }

  /** What is wrong with an observation that is not consistent. */
  ghost function ErrorAt(before: PodTable, o: Observation): PilotError
    requires before.Valid()
  {
    match Assess(before, o.pods) case Failure(e) => e case Success(_) => InconsistentObservation
  }

  /** The error of the first one. */
  ghost function FirstError(before: PodTable, observations: seq<Observation>): PilotError
    requires before.Valid() && !Consistent(before, observations)
  {
    var init := observations[..|observations| - 1];
    if Consistent(before, init) then ErrorAt(before, observations[|observations| - 1]) else FirstError(before, init)
  }

  lemma {:induction false} FirstErrorIs(before: PodTable, observations: seq<Observation>, i: nat)
    requires before.Valid() && i < |observations| && Consistent(before, observations[..i])
    requires !Assessed(before, observations[i].pods, observations[i].assessment)
    ensures !Consistent(before, observations) && FirstError(before, observations) == ErrorAt(before, observations[i])
  {
    var n := |observations| - 1;
    if i < n {
      assert observations[..n][..i] == observations[..i];
      FirstErrorIs(before, observations[..n], i);
    }
  }

  /** The classification, as a function of the recorded observations. */
  ghost function Finalize(before: PodTable, observations: seq<Observation>, digest: RowDigest): (r: Result<Assessment, PilotError>)
    requires before.Valid()
  {
    if observations == [] then Failure(NoObservations)
    else if !Consistent(before, observations) then Failure(FirstError(before, observations))
    else
      var last := observations[|observations| - 1];
      ConsistentPods(before, observations);
      if last.assessment.success then Success(last.assessment)
      else
        Success(Concluded(last.assessment, |observations|, last.cumulativeWait, Stable(before, observations),
                          RowsOf(observations, before.order), digest))
  }

  method FinalizeRuntimeCleanupAssessment(before: PodTable, observations: seq<Observation>, digest: RowDigest)
    returns (r: Result<Assessment, PilotError>)
    requires before.Valid()
    ensures r == Finalize(before, observations, digest)
  {
    if observations == [] { return Failure(NoObservations); }
    var error := Recompute(before, observations);
    if error.Some? { return Failure(error.value); }
    var last := observations[|observations| - 1];
    if last.assessment.success { return Success(last.assessment); }
    ConsistentPods(before, observations);
    var rows, podsStable := CollectRows(observations, before.order);
    var stable := CompleteWindow(observations)
      && (forall i | 0 <= i < |observations| :: SharedMemoryOnly(observations[i].assessment))
      && podsStable && PairTotal(rows) != 0;
    r := Success(Concluded(last.assessment, |observations|, last.cumulativeWait, stable, rows, digest));
  }

  /** The first loop: every snapshot is assessed again. */
  method Recompute(before: PodTable, observations: seq<Observation>) returns (error: Option<PilotError>)
    requires before.Valid()
    ensures error.None? <==> Consistent(before, observations)
    ensures error.Some? ==> error.value == FirstError(before, observations)
  {
    for i := 0 to |observations|
      invariant Consistent(before, observations[..i])
    {
      var assessment := AssessRuntimeCleanup(before, observations[i].pods);
      AssessedBy(before, observations[i].pods, assessment, observations[i].assessment);
      if assessment != Success(observations[i].assessment) {
        FirstErrorIs(before, observations, i);
        return Some(if assessment.Failure? then assessment.error else InconsistentObservation);
      }
    }
    assert observations[..|observations|] == observations;
    error := None;
  }

  /** The loop over the pods. */
  method CollectRows(observations: seq<Observation>, pods: seq<string>) returns (rows: seq<Row>, stable: bool)
    requires forall pod | pod in pods :: HasPod(observations, pod)
    ensures rows == RowsOf(observations, pods)
    ensures stable <==> forall pod | pod in pods :: PodStable(observations, pod)
  {
    rows, stable := [], true;
    for p := 0 to |pods|
      invariant Collected(observations, pods, p, rows, stable)
    {
      var podStable, row := ExaminePod(observations, pods[p]);
      CollectedStep(observations, pods, p, rows, stable, podStable, row);
      if !podStable { stable := false; }
      rows := rows + row;
    }
    assert pods[..|pods|] == pods;
  }

  ghost predicate PodsStable(observations: seq<Observation>, pods: seq<string>, p: nat)
    requires p <= |pods| && forall pod | pod in pods :: HasPod(observations, pod)
  {
    forall k | 0 <= k < p :: PodStable(observations, pods[k])
  }

  ghost predicate Collected(observations: seq<Observation>, pods: seq<string>, p: nat, rows: seq<Row>, stable: bool)
    requires p <= |pods| && forall pod | pod in pods :: HasPod(observations, pod)
  {
    rows == RowsOf(observations, pods[..p]) && stable == PodsStable(observations, pods, p)
  }

  lemma RowsStep(observations: seq<Observation>, pods: seq<string>, p: nat)
    requires p < |pods| && forall pod | pod in pods :: HasPod(observations, pod)
    ensures RowsOf(observations, pods[..p + 1]) == RowsOf(observations, pods[..p]) + RowFor(observations, pods[p])
  {
    assert pods[..p + 1][..p] == pods[..p];
  }

  lemma StableStep(observations: seq<Observation>, pods: seq<string>, p: nat)
    requires p < |pods| && forall pod | pod in pods :: HasPod(observations, pod)
    ensures PodsStable(observations, pods, p + 1) == (PodsStable(observations, pods, p) && PodStable(observations, pods[p]))
  {
  }

  lemma CollectedStep(observations: seq<Observation>, pods: seq<string>, p: nat, rows: seq<Row>, stable: bool,
                      podStable: bool, row: seq<Row>)
    requires p < |pods| && forall pod | pod in pods :: HasPod(observations, pod)
    requires Collected(observations, pods, p, rows, stable)
    requires podStable == PodStable(observations, pods[p]) && row == RowFor(observations, pods[p])
    ensures Collected(observations, pods, p + 1, rows + row, stable && podStable)
  {
    RowsStep(observations, pods, p);
    StableStep(observations, pods, p);
  }

  method ExaminePod(observations: seq<Observation>, pod: string) returns (stable: bool, row: seq<Row>)
    requires HasPod(observations, pod)
    ensures stable <==> PodStable(observations, pod)
    ensures row == RowFor(observations, pod)
  {
    var recognized, prints := CollectFingerprints(observations, pod);
    stable := recognized && Uniform(prints);
    row := if Uniform(prints) then [Row(pod, prints[|prints| - 1])] else [];
  }

  /** The inner loop: the pod's fingerprints, and whether all were recognised. */
  method CollectFingerprints(observations: seq<Observation>, pod: string) returns (recognized: bool, prints: seq<Fingerprint>)
    requires HasPod(observations, pod)
    ensures recognized <==> forall i | 0 <= i < |observations| :: Recognized(MemoryAt(observations[i], pod))
    ensures prints == Fingerprints(observations, pod)
  {
    recognized, prints := true, [];
    for i := 0 to |observations|
      invariant recognized <==> forall k | 0 <= k < i :: Recognized(MemoryAt(observations[k], pod))
      invariant prints == Fingerprints(observations[..i], pod)
    {
      var m := MemoryAt(observations[i], pod);
      assert observations[..i + 1][..i] == observations[..i];
      if m.semaphores.None? {
        recognized := false;
      } else {
        if !Recognized(m) { recognized := false; }
        prints := prints + [FingerprintOf(m)];
      }
    }
    assert observations[..|observations|] == observations;
  }

  // ----- the host's run: observe with retries, then capture once more -----

  function Waited(attempts: nat): int
    requires attempts <= |RETRY_DELAYS|
  {
    if attempts == 0 then 0 else Waited(attempts - 1) + RETRY_DELAYS[attempts - 1]
  }

  /** The answers the cluster gives to successive captures. */
  type Captures = nat -> PodTable

  ghost predicate Attempted(before: PodTable, captures: Captures, observations: seq<Observation>)
    requires before.Valid()
  {
    && |observations| <= |RETRY_DELAYS|
    && forall i | 0 <= i < |observations| ::
         var o := observations[i];
         && o.attempt == i + 1 && !o.finalCapture && o.waitBefore == RETRY_DELAYS[i] && o.cumulativeWait == Waited(i + 1)
         && o.pods == captures(i) && Assessed(before, o.pods, o.assessment)
         && (i + 1 < |observations| ==> !o.assessment.success)
  }

  lemma AttemptedStep(before: PodTable, captures: Captures, observations: seq<Observation>, o: Observation)
    requires before.Valid() && Attempted(before, captures, observations) && |observations| < |RETRY_DELAYS|
    requires observations != [] ==> !observations[|observations| - 1].assessment.success
    requires o.attempt == |observations| + 1 && !o.finalCapture && o.waitBefore == RETRY_DELAYS[|observations|]
    requires o.cumulativeWait == Waited(|observations| + 1) && o.pods == captures(|observations|)
    requires Assessed(before, o.pods, o.assessment)
    ensures Attempted(before, captures, observations + [o])
  {
  }

  /** Captures until one succeeds or the schedule ends. */
  method ObserveRuntimeCleanup(before: PodTable, captures: Captures, digest: RowDigest)
    returns (r: Result<Assessment, PilotError>, observations: seq<Observation>)
    requires before.Valid()
    ensures Attempted(before, captures, observations)
    ensures r.Success? ==>
              && r == Finalize(before, observations, digest) && observations != []
              && (|observations| < |RETRY_DELAYS| ==> observations[|observations| - 1].assessment.success)
    ensures r.Failure? ==> |observations| < |RETRY_DELAYS| && Answers(before, captures(|observations|), r)
  {
    observations := [];
    var cumulativeWait := 0;
    for i := 0 to |RETRY_DELAYS|
      invariant |observations| == i && Attempted(before, captures, observations) && cumulativeWait == Waited(i)
      invariant i > 0 ==> !observations[i - 1].assessment.success
    {
      var wait := RETRY_DELAYS[i];
      if wait != 0 { cumulativeWait := cumulativeWait + wait; }
      var after := captures(i);
      var assessment := AssessRuntimeCleanup(before, after);
      if assessment.Failure? { return Failure(assessment.error), observations; }
      AssessedBy(before, after, assessment, assessment.value);
      ghost var sofar := observations;
      observations := observations + [Observation(i + 1, false, wait, cumulativeWait, after, assessment.value)];
      AttemptedStep(before, captures, sofar, observations[i]);
      if assessment.value.success { break; }
    }
    r := FinalizeRuntimeCleanupAssessment(before, observations, digest);
  }

  /** What the host run can record: the attempts, then the bracketed capture. */
  ghost predicate HostRun(before: PodTable, captures: Captures, observations: seq<Observation>)
    requires before.Valid()
  {
    && observations != []
    && var attempts, final := observations[..|observations| - 1], observations[|observations| - 1];
    && attempts != [] && Attempted(before, captures, attempts)
    && (|attempts| < |RETRY_DELAYS| ==> attempts[|attempts| - 1].assessment.success)
    && final.attempt == |observations| && final.finalCapture && final.waitBefore == 0
    && final.cumulativeWait == Waited(|RETRY_DELAYS|)
    && Assessed(before, final.pods, final.assessment)
  }

  method HostCleanup(before: PodTable, captures: Captures, finalPods: PodTable, digest: RowDigest)
    returns (r: Result<Assessment, PilotError>, observations: seq<Observation>)
    requires before.Valid()
    ensures r.Success? ==>
              && HostRun(before, captures, observations) && observations[|observations| - 1].pods == finalPods
              && r == Finalize(before, observations, digest)
    ensures r.Failure? ==>
              || Answers(before, finalPods, r)
              || (|observations| < |RETRY_DELAYS| && Answers(before, captures(|observations|), r))
  {
    r, observations := ObserveRuntimeCleanup(before, captures, digest);
    if r.Failure? { return; }
    var assessment := AssessRuntimeCleanup(before, finalPods);
    if assessment.Failure? { return assessment, observations; }
    AssessedBy(before, finalPods, assessment, assessment.value);
    var final := Observation(|observations| + 1, true, 0, Waited(|RETRY_DELAYS|), finalPods, assessment.value);
    ghost var attempts := observations;
    observations := observations + [final];
    assert observations[..|observations| - 1] == attempts;
    r := FinalizeRuntimeCleanupAssessment(before, observations, digest);
  }

  // ----- what a blocked classification means -----

  lemma {:induction false} FingerprintsOfAll(observations: seq<Observation>, pod: string)
    requires HasPod(observations, pod)
    requires forall i | 0 <= i < |observations| :: MemoryAt(observations[i], pod).semaphores.Some?
    ensures |Fingerprints(observations, pod)| == |observations|
    ensures forall i | 0 <= i < |observations| :: Fingerprints(observations, pod)[i] == FingerprintOf(MemoryAt(observations[i], pod))
  {
    if observations != [] {
      var init := observations[..|observations| - 1];
      forall i | 0 <= i < |init| ensures pod in init[i].pods.rows && init[i] == observations[i] {
        assert pod in observations[i].pods.rows;
      }
      FingerprintsOfAll(init, pod);
    }
  }

  lemma {:induction false} SomePairs(rows: seq<Row>)
    requires PairTotal(rows) != 0
    ensures exists row | row in rows :: row.fingerprint.headerCount != 0
  {
    var last := rows[|rows| - 1];
    if last.fingerprint.headerCount == 0 {
      SomePairs(rows[..|rows| - 1]);
      var row :| row in rows[..|rows| - 1] && row.fingerprint.headerCount != 0;
      assert row in rows;
    } else {
      assert last in rows;
    }
  }

  lemma {:induction false} RowsAreFingerprints(observations: seq<Observation>, pods: seq<string>, row: Row)
    requires forall pod | pod in pods :: HasPod(observations, pod)
    requires row in RowsOf(observations, pods)
    ensures row.pod in pods && row.fingerprint in Fingerprints(observations, row.pod)
  {
    if row !in RowsOf(observations, pods[..|pods| - 1]) {
      assert row.pod == pods[|pods| - 1];
    } else {
      RowsAreFingerprints(observations, pods[..|pods| - 1], row);
    }
  }

  /** What every snapshot of a blocked run shows. */
  ghost predicate HoldsPairs(m: Memory, reference: Memory) {
    && m.semaphores.Some? && reference.semaphores.Some?
    && m.entryCount == 2 * m.semaphores.value.pairCount
    && m.semaphores.value.headerCount == m.semaphores.value.objectCount == m.semaphores.value.pairCount
    && FingerprintOf(m) == FingerprintOf(reference)
  }
}
