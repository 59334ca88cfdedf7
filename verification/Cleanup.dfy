/** scripts/kuberay_compiled_graph_pilot.py: observing, assessing and classifying
    the runtime cleanup of the pilot pods. */
module Cleanup {
  import opened Text
  import opened SharedMemory

  const AVAILABLE_TOLERANCE := 1024 * 1024

  /** Seconds waited before each capture, and the seconds waited by then. */
  const RETRY_DELAYS: seq<int> := [0, 5, 15, 30]
  const REQUIRED_WAITS: seq<int> := [0, 5, 20, 50]

  datatype Snapshot = Snapshot(memory: Memory, childCount: int)

  /** One snapshot per pod, in the order the pods were captured. */
  datatype PodTable = PodTable(order: seq<string>, rows: map<string, Snapshot>) {
    ghost predicate Valid() {
      && (forall name :: name in order <==> name in rows)
      && (forall a, b | 0 <= a < b < |order| :: order[a] != order[b])
    }
  }

  datatype PilotError = PodSetChanged | BaselineViolated | NoObservations | InconsistentObservation

  datatype Reason = ChildrenRemaining | EntriesNotRestored | AvailableNotRestored | ResidualNotStable

  datatype Classification = InvariantFailed | MutableObjectBlocked

  datatype PodResult = PodResult(
    before: Memory, after: Memory, childrenAfter: int, entriesRestored: bool, availableRestored: bool,
    availableDelta: int, countDelta: int, bytesDelta: int)

  datatype Window = Window(observationCount: nat, waitSeconds: int, pairCount: int, fingerprintDigest: string)

  datatype Assessment = Assessment(
    success: bool, classification: Option<Classification>, reasons: set<Reason>,
    entriesRestored: bool, identityRestored: bool, availableRestored: bool, childrenRemaining: int,
    stable: bool, pods: map<string, PodResult>, window: Option<Window>)

  predicate Refused(before: Snapshot, after: Snapshot) {
    || before.childCount != 0
    || before.memory.entryCount != 0 || before.memory.entryBytes != 0
    || before.memory.totalBytes != SHARED_MEMORY_BYTES || after.memory.totalBytes != SHARED_MEMORY_BYTES
    || after.childCount < 0
  }

  function PodResultOf(before: Memory, after: Memory, childrenAfter: int): PodResult {
    var delta := after.availableBytes - before.availableBytes;
    PodResult(before, after, childrenAfter,
              before.entryCount == after.entryCount && before.entryBytes == after.entryBytes
                && before.entryDigest == after.entryDigest,
              delta >= -AVAILABLE_TOLERANCE, delta,
              after.entryCount - before.entryCount, after.entryBytes - before.entryBytes)
  }

  function ResultOf(b: Snapshot, a: Snapshot): PodResult { PodResultOf(b.memory, a.memory, a.childCount) }

  function ReasonsFor(result: PodResult): set<Reason> {
    (if result.childrenAfter != 0 then {ChildrenRemaining} else {})
    + (if !result.entriesRestored then {EntriesNotRestored} else {})
    + (if !result.availableRestored then {AvailableNotRestored} else {})
  }

  datatype Totals = Totals(pods: map<string, PodResult>, reasons: set<Reason>, children: int)

  /** The pods assessed one by one. */
  function TotalsOf(names: seq<string>, before: map<string, Snapshot>, after: map<string, Snapshot>): Totals
    requires forall name | name in names :: name in before && name in after
  {
    if names == [] then Totals(map[], {}, 0)
    else
      var name := names[|names| - 1];
      var sofar := TotalsOf(names[..|names| - 1], before, after);
      var result := ResultOf(before[name], after[name]);
      Totals(sofar.pods[name := result], sofar.reasons + ReasonsFor(result), sofar.children + after[name].childCount)
  }

  function Summarise(totals: Totals): Assessment {
    var pods := totals.pods;
    Assessment(
      totals.reasons == {}, if totals.reasons == {} then None else Some(InvariantFailed), totals.reasons,
      forall name | name in pods :: pods[name].entriesRestored,
      forall name | name in pods :: pods[name].before.entryDigest == pods[name].after.entryDigest,
      forall name | name in pods :: pods[name].availableRestored,
      totals.children, false, pods, None)
  }

  /** The assessment of one observation against the baseline. */
  function Assess(before: PodTable, after: PodTable): (r: Result<Assessment, PilotError>)
    requires before.Valid()
    ensures r.Success? ==> before.rows.Keys == after.rows.Keys
  {
    if before.rows.Keys != after.rows.Keys then Failure(PodSetChanged)
    else if exists name :: name in before.rows && Refused(before.rows[name], after.rows[name]) then Failure(BaselineViolated)
    else Success(Summarise(TotalsOf(before.order, before.rows, after.rows)))
  }

  method Collect(reasons: set<Reason>, result: PodResult) returns (r: set<Reason>)
    ensures r == reasons + ReasonsFor(result)
  {
    r := reasons;
    if result.childrenAfter != 0 { r := r + {ChildrenRemaining}; }
    if !result.entriesRestored { r := r + {EntriesNotRestored}; }
    if !result.availableRestored { r := r + {AvailableNotRestored}; }
  }

  method AssessRuntimeCleanup(before: PodTable, after: PodTable) returns (r: Result<Assessment, PilotError>)
    requires before.Valid()
    ensures r == Assess(before, after)
  {
    if before.rows.Keys != after.rows.Keys { return Failure(PodSetChanged); }
    var results: map<string, PodResult> := map[];
    var reasons: set<Reason> := {};
    var children := 0;
    for i := 0 to |before.order|
      invariant Assessing(before, after, i, Totals(results, reasons, children))
    {
      var name := before.order[i];
      var b, a := before.rows[name], after.rows[name];
      if Refused(b, a) { return Failure(BaselineViolated); }
      AssessingMore(before, after, i, Totals(results, reasons, children));
      var result := PodResultOf(b.memory, a.memory, a.childCount);
      reasons := Collect(reasons, result);
      children := children + a.childCount;
      results := results[name := result];
    }
    AssessingEnds(before, after, Totals(results, reasons, children));
    r := Success(Summarise(Totals(results, reasons, children)));
  }

  /** The first `i` pods are assessed, and none of them was refused. */
  ghost predicate Assessing(before: PodTable, after: PodTable, i: nat, t: Totals)
    requires before.Valid() && before.rows.Keys == after.rows.Keys && i <= |before.order|
  {
    && (forall k | 0 <= k < i :: !Refused(before.rows[before.order[k]], after.rows[before.order[k]]))
    && t == TotalsOf(before.order[..i], before.rows, after.rows)
  }

  lemma AssessingMore(before: PodTable, after: PodTable, i: nat, t: Totals)
    requires before.Valid() && before.rows.Keys == after.rows.Keys && i < |before.order| && Assessing(before, after, i, t)
    requires !Refused(before.rows[before.order[i]], after.rows[before.order[i]])
    ensures var b, a := before.rows[before.order[i]], after.rows[before.order[i]];
            var result := ResultOf(b, a);
            Assessing(before, after, i + 1,
              Totals(t.pods[before.order[i] := result], t.reasons + ReasonsFor(result), t.children + a.childCount))
  {
    TotalsStep(before.order, i, before.rows, after.rows);
  }

  lemma AssessingEnds(before: PodTable, after: PodTable, t: Totals)
    requires before.Valid() && before.rows.Keys == after.rows.Keys && Assessing(before, after, |before.order|, t)
    ensures Assess(before, after) == Success(Summarise(t))
  {
    assert before.order[..|before.order|] == before.order;
  }

  lemma TotalsStep(names: seq<string>, i: nat, before: map<string, Snapshot>, after: map<string, Snapshot>)
    requires i < |names| && forall name | name in names :: name in before && name in after
    ensures var name, sofar := names[i], TotalsOf(names[..i], before, after);
            var result := ResultOf(before[name], after[name]);
            TotalsOf(names[..i + 1], before, after)
            == Totals(sofar.pods[name := result], sofar.reasons + ReasonsFor(result), sofar.children + after[name].childCount)
  {
    assert names[..i + 1][..i] == names[..i];
  }

  lemma {:induction false} PodsMean(names: seq<string>, before: map<string, Snapshot>, after: map<string, Snapshot>)
    requires forall name | name in names :: name in before && name in after
    ensures var pods := TotalsOf(names, before, after).pods;
            && pods.Keys == (set name | name in names)
            && (forall name | name in names :: pods[name] == ResultOf(before[name], after[name]))
  {
    if names != [] {
      var init, last := names[..|names| - 1], names[|names| - 1];
      PodsMean(init, before, after);
      assert names == init + [last];
    }
  }

  lemma {:induction false} ReasonMeans(names: seq<string>, before: map<string, Snapshot>, after: map<string, Snapshot>, reason: Reason)
    requires forall name | name in names :: name in before && name in after
    ensures reason in TotalsOf(names, before, after).reasons <==>
              exists name | name in names :: reason in ReasonsFor(ResultOf(before[name], after[name]))
  {
    if names != [] {
      var init, last := names[..|names| - 1], names[|names| - 1];
      ReasonMeans(init, before, after, reason);
      assert names == init + [last];
    }
  }

  /** A reason is given exactly when some pod gives it, and the pods assessed are
      the pods named. */
  lemma TotalsMean(names: seq<string>, before: map<string, Snapshot>, after: map<string, Snapshot>)
    requires forall name | name in names :: name in before && name in after
    ensures var t := TotalsOf(names, before, after);
            && t.pods.Keys == (set name | name in names)
            && (forall name | name in names ::
                  t.pods[name] == ResultOf(before[name], after[name]))
            && (forall reason :: reason in t.reasons <==> exists name | name in names :: reason in ReasonsFor(t.pods[name]))
  {
    PodsMean(names, before, after);
    var t := TotalsOf(names, before, after);
    forall reason
      ensures reason in t.reasons <==> exists name | name in names :: reason in ReasonsFor(t.pods[name])
    {
      ReasonMeans(names, before, after, reason);
      if name :| name in names && reason in ReasonsFor(ResultOf(before[name], after[name])) {
        assert reason in ReasonsFor(t.pods[name]);
      }
      if name :| name in names && reason in ReasonsFor(t.pods[name]) {
        assert reason in ReasonsFor(ResultOf(before[name], after[name]));
      }
    }
  }

  // ----- what an assessment says, in terms of the snapshots -----

  /** Count, bytes and digest of the entries are as before. */
  ghost predicate SameEntries(b: Snapshot, a: Snapshot) {
    && a.memory.entryCount == b.memory.entryCount && a.memory.entryBytes == b.memory.entryBytes
    && a.memory.entryDigest == b.memory.entryDigest
  }

  /** The available bytes fell by one mebibyte at most. */
  ghost predicate AvailableKept(b: Snapshot, a: Snapshot) {
    b.memory.availableBytes - a.memory.availableBytes <= 1048576
  }

  /** The baseline was empty, the capacity is as configured, and the count of children
      is one. */
  ghost predicate CleanBaseline(b: Snapshot, a: Snapshot) {
    && b.childCount == 0 && b.memory.entryCount == 0 && b.memory.entryBytes == 0
    && b.memory.totalBytes == 536870912 == a.memory.totalBytes && a.childCount >= 0
  }

  /** What is recorded of one pod. */
  ghost predicate Records(p: PodResult, b: Snapshot, a: Snapshot) {
    && p.before == b.memory && p.after == a.memory && p.childrenAfter == a.childCount
    && (p.entriesRestored <==> SameEntries(b, a)) && (p.availableRestored <==> AvailableKept(b, a))
    && b.memory.availableBytes + p.availableDelta == a.memory.availableBytes
    && b.memory.entryCount + p.countDelta == a.memory.entryCount
    && b.memory.entryBytes + p.bytesDelta == a.memory.entryBytes
  }

  ghost function ChildTotal(names: seq<string>, after: map<string, Snapshot>): int
    requires forall name | name in names :: name in after
  {
    if names == [] then 0 else after[names[0]].childCount + ChildTotal(names[1..], after)
  }

  /** The assessment, pod by pod. */
  ghost predicate Says(a: Assessment, names: seq<string>, before: map<string, Snapshot>, after: map<string, Snapshot>)
    requires forall name | name in names :: name in before && name in after
  {
    && (a.success <==> forall name | name in names ::
          SameEntries(before[name], after[name]) && AvailableKept(before[name], after[name]) && after[name].childCount == 0)
    && (ChildrenRemaining in a.reasons <==> exists name | name in names :: after[name].childCount != 0)
    && (EntriesNotRestored in a.reasons <==> exists name | name in names :: !SameEntries(before[name], after[name]))
    && (AvailableNotRestored in a.reasons <==> exists name | name in names :: !AvailableKept(before[name], after[name]))
    && ResidualNotStable !in a.reasons
    && a.classification == (if a.success then None else Some(InvariantFailed))
  }

  /** Its flags and totals. */
  ghost predicate Sums(a: Assessment, names: seq<string>, before: map<string, Snapshot>, after: map<string, Snapshot>)
    requires forall name | name in names :: name in before && name in after
  {
    && (a.entriesRestored <==> forall name | name in names :: SameEntries(before[name], after[name]))
    && (a.identityRestored <==> forall name | name in names :: before[name].memory.entryDigest == after[name].memory.entryDigest)
    && (a.availableRestored <==> forall name | name in names :: AvailableKept(before[name], after[name]))
    && a.childrenRemaining == ChildTotal(names, after) && !a.stable && a.window == None
    && (forall name :: name in a.pods <==> name in names)
    && (forall name | name in names :: Records(a.pods[name], before[name], after[name]))
  }

  lemma ReasonsMean(b: Snapshot, a: Snapshot)
    ensures ChildrenRemaining in ReasonsFor(ResultOf(b, a)) <==> a.childCount != 0
    ensures EntriesNotRestored in ReasonsFor(ResultOf(b, a)) <==> !SameEntries(b, a)
    ensures AvailableNotRestored in ReasonsFor(ResultOf(b, a)) <==> !AvailableKept(b, a)
    ensures ResidualNotStable !in ReasonsFor(ResultOf(b, a))
    ensures Records(ResultOf(b, a), b, a)
  {
  }

  lemma NoReason(reasons: set<Reason>)
    ensures reasons == {} <==>
              && ChildrenRemaining !in reasons && EntriesNotRestored !in reasons
              && AvailableNotRestored !in reasons && ResidualNotStable !in reasons
  {
    if reasons != {} {
      var reason :| reason in reasons;
      assert reason == ChildrenRemaining || reason == EntriesNotRestored || reason == AvailableNotRestored || reason == ResidualNotStable;
    }
  }

  lemma {:induction false} ChildTotalAppend(names: seq<string>, last: string, after: map<string, Snapshot>)
    requires last in after && forall name | name in names :: name in after
    ensures ChildTotal(names + [last], after) == ChildTotal(names, after) + after[last].childCount
  {
    if names == [] {
      assert names + [last] == [last];
    } else {
      ChildTotalAppend(names[1..], last, after);
      assert (names + [last])[1..] == names[1..] + [last];
    }
  }

  lemma {:induction false} ChildrenSum(names: seq<string>, before: map<string, Snapshot>, after: map<string, Snapshot>)
    requires forall name | name in names :: name in before && name in after
    ensures TotalsOf(names, before, after).children == ChildTotal(names, after)
  {
    if names != [] {
      var init, last := names[..|names| - 1], names[|names| - 1];
      ChildrenSum(init, before, after);
      ChildTotalAppend(init, last, after);
      assert names == init + [last];
    }
  }

  lemma TotalsSay(names: seq<string>, before: map<string, Snapshot>, after: map<string, Snapshot>)
    requires forall name | name in names :: name in before && name in after
    ensures Says(Summarise(TotalsOf(names, before, after)), names, before, after)
  {
    var t := TotalsOf(names, before, after);
    forall name | name in names
      ensures ChildrenRemaining in ReasonsFor(ResultOf(before[name], after[name])) <==> after[name].childCount != 0
      ensures EntriesNotRestored in ReasonsFor(ResultOf(before[name], after[name])) <==> !SameEntries(before[name], after[name])
      ensures AvailableNotRestored in ReasonsFor(ResultOf(before[name], after[name])) <==> !AvailableKept(before[name], after[name])
      ensures ResidualNotStable !in ReasonsFor(ResultOf(before[name], after[name]))
    {
      ReasonsMean(before[name], after[name]);
    }
    ReasonMeans(names, before, after, ChildrenRemaining);
    ReasonMeans(names, before, after, EntriesNotRestored);
    ReasonMeans(names, before, after, AvailableNotRestored);
    ReasonMeans(names, before, after, ResidualNotStable);
    NoReason(t.reasons);
  }

  lemma TotalsSum(names: seq<string>, before: map<string, Snapshot>, after: map<string, Snapshot>)
    requires forall name | name in names :: name in before && name in after
    ensures Sums(Summarise(TotalsOf(names, before, after)), names, before, after)
  {
    PodsMean(names, before, after);
    ChildrenSum(names, before, after);
    var pods := TotalsOf(names, before, after).pods;
    forall name | name in names ensures Records(pods[name], before[name], after[name]) {
      ReasonsMean(before[name], after[name]);
    }
  }

  /** An assessment is returned exactly for an unchanged set of pods with clean baselines.
      It is a success if and only if every pod's entries are as before, its available
      bytes fell by one mebibyte at most and no child remains; each reason, flag, total
      and difference is what the snapshots show. */
  lemma AssessmentMeans(before: PodTable, after: PodTable)
    requires before.Valid()
    ensures Assess(before, after) == Failure(PodSetChanged) <==> before.rows.Keys != after.rows.Keys
    ensures Assess(before, after) == Failure(BaselineViolated) <==>
              before.rows.Keys == after.rows.Keys && exists name | name in before.rows :: !CleanBaseline(before.rows[name], after.rows[name])
    ensures Assess(before, after).Failure? ==> Assess(before, after).error in {PodSetChanged, BaselineViolated}
    ensures Assess(before, after).Success? ==>
              Says(Assess(before, after).value, before.order, before.rows, after.rows)
              && Sums(Assess(before, after).value, before.order, before.rows, after.rows)
  {
    if before.rows.Keys == after.rows.Keys {
      forall name | name in before.rows
        ensures Refused(before.rows[name], after.rows[name]) <==> !CleanBaseline(before.rows[name], after.rows[name])
      {
      }
      TotalsSay(before.order, before.rows, after.rows);
      TotalsSum(before.order, before.rows, after.rows);
    }
  }
}
