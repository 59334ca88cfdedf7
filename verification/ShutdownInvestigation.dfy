/** scripts/investigate_pytest_shutdown.py: the probes and their nested deadlines. */
module ShutdownInvestigation {
  import opened Basics
  import opened Text
  import opened ShutdownWorld
  import opened ShutdownCleanup

  // Milliseconds.
  const TOTAL := 1200000
  const RESERVE := 10000
  const SETTLE := 1000
  const JOIN_LIMIT := 2000

  datatype Stage = Imports | Collection | Ray

  datatype Probe = Probe(stage: Stage, recipe: string, repetition: nat, timeout: nat)

  function StageLimit(stage: Stage): nat {
    match stage case Imports => 300000 case Collection => 300000 case Ray => 600000
  }

  // ----- the plan -----

  const IMPORTS := ["grpc", "ray", "grpc-ray", "ray-grpc"]
  const COLLECTS := ["collect"]
  const RAYS := ["ray-bare", "ray-wait"]

  /** One repetition of every recipe. */
  function Round(stage: Stage, recipes: seq<string>, repetition: nat, timeout: nat): (round: seq<Probe>)
    ensures |round| == |recipes|
    ensures forall i | 0 <= i < |round| :: round[i] == Probe(stage, recipes[i], repetition, timeout)
  {
    seq(|recipes|, i requires 0 <= i < |recipes| => Probe(stage, recipes[i], repetition, timeout))
  }

  function Rounds(stage: Stage, recipes: seq<string>, repeats: nat, timeout: nat): seq<Probe> {
    if repeats == 0 then []
    else Rounds(stage, recipes, repeats - 1, timeout) + Round(stage, recipes, repeats - 1, timeout)
  }

  function Plan(): seq<Probe> {
    Rounds(Imports, IMPORTS, 10, 30000) + Rounds(Collection, COLLECTS, 5, 60000) + Rounds(Ray, RAYS, 4, 120000)
  }

  /** The place of probe i within its round. */
  function Place(i: int, repetition: nat, width: nat): int { i - repetition * width }

  lemma {:induction false} RoundsAre(stage: Stage, recipes: seq<string>, repeats: nat, timeout: nat)
    ensures |Rounds(stage, recipes, repeats, timeout)| == repeats * |recipes|
    ensures forall i | 0 <= i < |Rounds(stage, recipes, repeats, timeout)| ::
              var p := Rounds(stage, recipes, repeats, timeout)[i];
              var place := Place(i, p.repetition, |recipes|);
              p.stage == stage && p.timeout == timeout && 0 <= place < |recipes| && p.recipe == recipes[place]
  {
    if repeats > 0 {
      RoundsAre(stage, recipes, repeats - 1, timeout);
      assert (repeats - 1) * |recipes| + |recipes| == repeats * |recipes|;
      var before, round := Rounds(stage, recipes, repeats - 1, timeout), Round(stage, recipes, repeats - 1, timeout);
      assert |before| == (repeats - 1) * |recipes|;
    }
  }

  lemma RoundsDiffer(stage: Stage, recipes: seq<string>, repeats: nat, timeout: nat)
    requires forall i, j | 0 <= i < j < |recipes| :: recipes[i] != recipes[j]
    ensures var rounds := Rounds(stage, recipes, repeats, timeout);
            forall i, j | 0 <= i < j < |rounds| :: rounds[i] != rounds[j]
  {
    RoundsAre(stage, recipes, repeats, timeout);
    var rounds := Rounds(stage, recipes, repeats, timeout);
    forall i, j | 0 <= i < j < |rounds| ensures rounds[i] != rounds[j] {
      PlacesDiffer(i, j, rounds[i].repetition, |recipes|);
    }
  }

  lemma PlacesDiffer(i: int, j: int, repetition: nat, width: nat)
    ensures i != j ==> Place(i, repetition, width) != Place(j, repetition, width)
  {
  }

  /** Where a stage begins in the plan. */
  function First(stage: Stage): nat {
    match stage case Imports => 0 case Collection => 40 case Ray => 45
  }

  function StageAt(k: nat): Stage { if k < 40 then Imports else if k < 45 then Collection else Ray }

  /** Fifty-three probes in the order of the stages. */
  ghost predicate InStages(plan: seq<Probe>) {
    |plan| == 53 && forall k | 0 <= k < 53 :: plan[k].stage == StageAt(k)
  }

  lemma StagesJoin(a: seq<Probe>, b: seq<Probe>, c: seq<Probe>)
    requires |a| == 40 && |b| == 5 && |c| == 8
    requires forall i | 0 <= i < |a| :: a[i].stage == Imports
    requires forall i | 0 <= i < |b| :: b[i].stage == Collection
    requires forall i | 0 <= i < |c| :: c[i].stage == Ray
    ensures InStages(a + b + c)
  {
  }

  lemma DifferentJoin(a: seq<Probe>, b: seq<Probe>)
    requires forall i, j | 0 <= i < j < |a| :: a[i] != a[j]
    requires forall i, j | 0 <= i < j < |b| :: b[i] != b[j]
    requires forall i, j | 0 <= i < |a| && 0 <= j < |b| :: a[i].stage != b[j].stage
    ensures forall i, j | 0 <= i < j < |a + b| :: (a + b)[i] != (a + b)[j]
  {
  }

  /** The probe at place k: its stage's timeout and, round after round, its stage's recipes
      in order. */
  ghost predicate Planned(p: Probe, k: nat) {
    match p.stage
    case Imports => p.timeout == 30 * 1000 && 0 <= k - 4 * p.repetition < 4 && p.recipe == IMPORTS[k - 4 * p.repetition]
    case Collection => p.timeout == 60 * 1000 && p.repetition == k - 40 && p.recipe == "collect"
    case Ray => p.timeout == 120 * 1000 && 0 <= k - 45 - 2 * p.repetition < 2 && p.recipe == RAYS[k - 45 - 2 * p.repetition]
  }

  /** Forty imports, five collections and eight Ray probes, all different. */
  lemma PlanShape()
    ensures InStages(Plan())
    ensures forall k | 0 <= k < |Plan()| :: Planned(Plan()[k], k)
    ensures forall j, k | 0 <= j < k < |Plan()| :: Plan()[j] != Plan()[k]
  {
    RecipesDiffer();
    PlanJoins(IMPORTS, COLLECTS, RAYS);
    PlanRecipes();
  }

  lemma PlanRecipes()
    ensures |Plan()| == 53 && forall k | 0 <= k < |Plan()| :: Planned(Plan()[k], k)
  {
    ImportsPlanned();
    CollectionsPlanned();
    RaysPlanned();
    PlannedJoin(Rounds(Imports, IMPORTS, 10, 30000), Rounds(Collection, COLLECTS, 5, 60000), Rounds(Ray, RAYS, 4, 120000));
  }

  /** The probes stand in the plan from place `first` on. */
  ghost predicate PlannedFrom(probes: seq<Probe>, first: nat) {
    forall k | 0 <= k < |probes| :: Planned(probes[k], first + k)
  }

  lemma ImportsPlanned()
    ensures |Rounds(Imports, IMPORTS, 10, 30000)| == 40 && PlannedFrom(Rounds(Imports, IMPORTS, 10, 30000), 0)
  {
    RoundsAre(Imports, IMPORTS, 10, 30000);
  }

  lemma CollectionsPlanned()
    ensures |Rounds(Collection, COLLECTS, 5, 60000)| == 5 && PlannedFrom(Rounds(Collection, COLLECTS, 5, 60000), 40)
  {
    RoundsAre(Collection, COLLECTS, 5, 60000);
  }

  lemma RaysPlanned()
    ensures |Rounds(Ray, RAYS, 4, 120000)| == 8 && PlannedFrom(Rounds(Ray, RAYS, 4, 120000), 45)
  {
    RoundsAre(Ray, RAYS, 4, 120000);
  }

  lemma PlannedJoin(a: seq<Probe>, b: seq<Probe>, c: seq<Probe>)
    requires |a| == 40 && |b| == 5 && |c| == 8 && PlannedFrom(a, 0) && PlannedFrom(b, 40) && PlannedFrom(c, 45)
    ensures |a + b + c| == 53 && forall k | 0 <= k < |a + b + c| :: Planned((a + b + c)[k], k)
  {
    forall k | 0 <= k < |a + b + c| ensures Planned((a + b + c)[k], k) {
      if k < 40 { assert Planned(a[k], 0 + k); }
      else if k < 45 { assert Planned(b[k - 40], 40 + (k - 40)); }
      else { assert Planned(c[k - 45], 45 + (k - 45)); }
    }
  }

  lemma RecipesDiffer()
    ensures forall i, j | 0 <= i < j < 4 :: IMPORTS[i] != IMPORTS[j]
    ensures RAYS[0] != RAYS[1]
  {
    assert IMPORTS[0] == "grpc" && IMPORTS[1] == "ray" && |IMPORTS[2]| == |IMPORTS[3]| == 8 && IMPORTS[2][0] != IMPORTS[3][0];
    assert RAYS[0][4] != RAYS[1][4];
  }

  lemma PlanJoins(imports: seq<string>, collects: seq<string>, rays: seq<string>)
    requires |imports| == 4 && |collects| == 1 && |rays| == 2
    requires forall i, j | 0 <= i < j < 4 :: imports[i] != imports[j]
    requires rays[0] != rays[1]
    ensures var plan := Rounds(Imports, imports, 10, 30000) + Rounds(Collection, collects, 5, 60000) + Rounds(Ray, rays, 4, 120000);
            InStages(plan) && forall j, k | 0 <= j < k < |plan| :: plan[j] != plan[k]
  {
    RoundsAre(Imports, imports, 10, 30000);
    RoundsAre(Collection, collects, 5, 60000);
    RoundsAre(Ray, rays, 4, 120000);
    RoundsDiffer(Imports, imports, 10, 30000);
    RoundsDiffer(Collection, collects, 5, 60000);
    RoundsDiffer(Ray, rays, 4, 120000);
    AllJoin(Rounds(Imports, imports, 10, 30000), Rounds(Collection, collects, 5, 60000), Rounds(Ray, rays, 4, 120000));
  }

  lemma AllJoin(a: seq<Probe>, b: seq<Probe>, c: seq<Probe>)
    requires |a| == 40 && |b| == 5 && |c| == 8
    requires forall i | 0 <= i < |a| :: a[i].stage == Imports
    requires forall i | 0 <= i < |b| :: b[i].stage == Collection
    requires forall i | 0 <= i < |c| :: c[i].stage == Ray
    requires forall i, j | 0 <= i < j < |a| :: a[i] != a[j]
    requires forall i, j | 0 <= i < j < |b| :: b[i] != b[j]
    requires forall i, j | 0 <= i < j < |c| :: c[i] != c[j]
    ensures InStages(a + b + c) && forall i, j | 0 <= i < j < |a + b + c| :: (a + b + c)[i] != (a + b + c)[j]
  {
    StagesJoin(a, b, c);
    DifferentJoin(a, b);
    DifferentJoin(a + b, c);
  }

  // ----- one probe -----

  datatype Observation = Observation(probe: Probe, limit: nat, code: Option<int>, timedOut: bool, interrupted: bool, clean: bool,
                                     retained: nat, captured: bool, passed: bool, started: nat, ended: nat)

  /** Let ordinary exits finish: look for descendants every fifty milliseconds until none
      is left, a second has passed, or an interrupt comes. */
  method Settle(world: World) returns (interrupted: bool)
    modifies world`now, world`zombies, world`seen, world`present, world`disturbances, world`looks
    ensures old(world.now) <= world.now < old(world.now) + SETTLE + PAUSE
    ensures world.disturbances == old(world.disturbances) + if interrupted then 1 else 0
    ensures interrupted || world.present == {} || world.now >= old(world.now) + SETTLE
    ensures world.looks > old(world.looks)
    ensures world.now - old(world.now) <= PAUSE * (world.looks - old(world.looks))
  {
    var start := world.Clock();
    interrupted := false;
    var left := world.Children();
    while left != {} && world.now < start + SETTLE
      invariant start <= world.now < start + SETTLE + PAUSE
      invariant world.disturbances == old(world.disturbances) && left == world.present && world.looks > old(world.looks)
      invariant world.now - start <= PAUSE * (world.looks - old(world.looks) - 1)
      decreases start + SETTLE + PAUSE - world.now
    {
      interrupted := world.Nap(PAUSE);
      if interrupted { return; }
      left := world.Children();
    }
  }

  /** A probe ends within its timeout and the reserve. Exactly after an exit it looks for
      descendants before the cleanup does. It records what the world did: the
      exit code of an undisturbed exit, the timeout, an interrupt of the wait or the settling,
      and how the capture ended. It passes exactly if the process itself exited with 0
      in time and undisturbed, no descendant is left and its output was captured. */
  method RunProbe(world: World, probe: Probe, timeout: nat) returns (o: Observation)
    modifies world
    ensures o.probe == probe && o.limit == timeout && o.started == old(world.now) && o.ended == world.now
    ensures o.started <= o.ended <= o.started + timeout + RESERVE
    ensures |world.answers| == |old(world.answers)| + 1 && world.answers[..|old(world.answers)|] == old(world.answers)
    ensures var waited := world.answers[|old(world.answers)|];
            && (o.timedOut <==> waited == TimedOut)
            && (waited.Exited? <==> world.looks - old(world.looks) > world.polls - old(world.polls))
            && (o.interrupted <==> waited == Interrupted || world.disturbances > old(world.disturbances))
            && (forall c :: o.code == Some(c) <==> waited == Exited(c) && !o.interrupted)
            && (o.captured <==> !world.readerAlive && !world.captureFailed)
            && (o.passed <==> waited == Exited(0) && world.disturbances == old(world.disturbances) && o.clean && o.captured)
    ensures old(world.disturbances) <= world.disturbances
    ensures o.timedOut ==> o.started + timeout <= o.ended
    ensures (o.clean <==> world.childless) && (o.clean ==> world.exited)
    ensures world.killed + world.terminated == world.seen && o.retained == |world.seen|
    ensures !o.clean ==> world.killed == world.seen
  {
    var started := world.Clock();
    var waited := world.Wait(timeout);
    var interrupted := waited == Interrupted;
    if waited.Exited? { interrupted := Settle(world); }
    var clean, retained := CleanupOwned(world);
    var alive := world.Join(JOIN_LIMIT);
    var captureFailed := world.CaptureError();
    var code := if waited.Exited? && !interrupted then Some(waited.code) else None;
    var captured := !captureFailed && !alive;
    var passed := code == Some(0) && clean && captured;
    var ended := world.Clock();
    o := Observation(probe, timeout, code, waited == TimedOut, interrupted, clean, retained, captured, passed, started, ended);
  }

  // ----- the investigation -----

  datatype Outcome = Complete | DeadlineExhausted | FailedObservation

  /** The observations follow the plan; every one but the last passed, each started
      when the one before ended, and each ended within its stage's limit. */
  ghost predicate Follows(plan: seq<Probe>, observations: seq<Observation>, start: nat) {
    && |observations| <= |plan|
    && forall k | 0 <= k < |observations| :: InPlan(plan, observations, start, k)
  }

  /** What is left for probe k of its stage when it starts at `now`. */
  ghost function Left(observations: seq<Observation>, k: nat, now: nat): int
    requires First(StageAt(k)) <= k <= |observations|
  {
    var stageStart := if First(StageAt(k)) == k then now else observations[First(StageAt(k))].started;
    stageStart + StageLimit(StageAt(k)) - now - RESERVE
  }

  /** The smaller of the probe's own timeout and what is left of its stage. */
  ghost function Granted(plan: seq<Probe>, observations: seq<Observation>, k: nat, now: nat): int
    requires First(StageAt(k)) <= k <= |observations| && k < |plan|
  {
    if plan[k].timeout < Left(observations, k, now) then plan[k].timeout else Left(observations, k, now)
  }

  ghost predicate InPlan(plan: seq<Probe>, observations: seq<Observation>, start: nat, k: nat)
    requires k < |observations| <= |plan|
  {
    && observations[k].probe == plan[k]
    && (k > 0 ==> observations[k - 1].passed)
    && observations[k].started == (if k == 0 then start else observations[k - 1].ended)
    && (First(StageAt(k)) <= k ==> Left(observations, k, observations[k].started) > 0)
    && (First(StageAt(k)) <= k ==> observations[k].limit == Granted(plan, observations, k, observations[k].started))
    && (First(StageAt(k)) <= k ==> observations[k].ended <= observations[First(StageAt(k))].started + StageLimit(StageAt(k)))
    && observations[k].ended <= start + BudgetUpTo(StageAt(k))
  }

  /** When a stage and all before it must have ended. */
  function BudgetUpTo(stage: Stage): nat {
    match stage case Imports => 300000 case Collection => 600000 case Ray => 1200000
  }

  ghost predicate AllPassed(observations: seq<Observation>) {
    forall k | 0 <= k < |observations| :: observations[k].passed
  }

  /** Every process exited with 0, and left nothing behind. */
  ghost predicate AllClean(observations: seq<Observation>) {
    forall k | 0 <= k < |observations| :: observations[k].code == Some(0) && observations[k].clean && observations[k].captured
  }

  /** The loop before the next probe: the clock stands at the end of the last one, and
      the stage in progress has its deadline. */
  ghost predicate Progress(plan: seq<Probe>, observations: seq<Observation>, start: nat, now: nat, stage: Option<Stage>, stageDeadline: nat) {
    && Follows(plan, observations, start)
    && if observations == [] then now == start && stage == None
       else
         var last := |observations| - 1;
         && now == observations[last].ended && stage == Some(StageAt(last))
         && stageDeadline == observations[First(StageAt(last))].started + StageLimit(StageAt(last))
         && now <= stageDeadline <= start + BudgetUpTo(StageAt(last))
  }

  lemma ProgressStep(plan: seq<Probe>, observations: seq<Observation>, o: Observation, start: nat, now: nat,
                     stage: Option<Stage>, before: nat, stageDeadline: nat)
    requires InStages(plan) && |observations| < |plan| && Progress(plan, observations, start, now, stage, before)
    requires observations != [] ==> observations[|observations| - 1].passed
    requires o.probe == plan[|observations|] && o.started == now <= o.ended <= stageDeadline
    requires stageDeadline - now - RESERVE > 0
    requires o.limit == if o.probe.timeout < stageDeadline - now - RESERVE then o.probe.timeout else stageDeadline - now - RESERVE
    requires stageDeadline == if Some(o.probe.stage) == stage then before else now + StageLimit(o.probe.stage)
    ensures Progress(plan, observations + [o], start, o.ended, Some(o.probe.stage), stageDeadline)
  {
    var k, more := |observations|, observations + [o];
    assert o.probe.stage == StageAt(k);
    forall j | 0 <= j < |more| ensures InPlan(plan, more, start, j) {
      if j < k { assert InPlan(plan, observations, start, j); }
    }
  }

  /** A new stage always has its whole limit before the overall deadline. */
  lemma StageFits(plan: seq<Probe>, observations: seq<Observation>, start: nat, now: nat, stage: Option<Stage>, stageDeadline: nat)
    requires InStages(plan) && |observations| < |plan| && Progress(plan, observations, start, now, stage, stageDeadline)
    ensures Some(StageAt(|observations|)) != stage ==> now + StageLimit(StageAt(|observations|)) <= start + TOTAL
    ensures Some(StageAt(|observations|)) == stage ==> stageDeadline <= start + TOTAL
  {
  }

  lemma ProgressMeans(plan: seq<Probe>, observations: seq<Observation>, start: nat, now: nat, stage: Option<Stage>, stageDeadline: nat)
    requires Progress(plan, observations, start, now, stage, stageDeadline)
    ensures Follows(plan, observations, start) && now <= start + TOTAL
  {
  }

  /** The whole investigation ends within twenty minutes, each stage within its own
      limit of its start. It is complete exactly when every planned probe ran and
      passed; it fails exactly at a probe that did not; it is exhausted only inside a
      stage, never before one. */
  method Investigate(world: World) returns (outcome: Outcome, observations: seq<Observation>)
    modifies world
    ensures Follows(Plan(), observations, old(world.now))
    ensures world.now <= old(world.now) + TOTAL
    ensures outcome == Complete <==> |observations| == |Plan()| && AllPassed(observations)
    ensures outcome == FailedObservation <==> !AllPassed(observations)
    ensures AllPassed(observations) ==> AllClean(observations) && world.disturbances == old(world.disturbances)
    ensures outcome == DeadlineExhausted ==>
              && 0 < |observations| < |Plan()| && StageAt(|observations|) == StageAt(|observations| - 1)
              && Left(observations, |observations|, world.now) <= 0
  {
    PlanShape();
    outcome, observations := RunPlan(world, Plan());
  }

  method RunPlan(world: World, plan: seq<Probe>) returns (outcome: Outcome, observations: seq<Observation>)
    requires InStages(plan)
    modifies world
    ensures Follows(plan, observations, old(world.now))
    ensures world.now <= old(world.now) + TOTAL
    ensures outcome == Complete <==> |observations| == |plan| && AllPassed(observations)
    ensures outcome == FailedObservation <==> !AllPassed(observations)
    ensures AllPassed(observations) ==> AllClean(observations) && world.disturbances == old(world.disturbances)
    ensures outcome == DeadlineExhausted ==>
              && 0 < |observations| < |plan| && StageAt(|observations|) == StageAt(|observations| - 1)
              && Left(observations, |observations|, world.now) <= 0
  {
    ghost var start := world.now;
    var deadline := world.now + TOTAL;
    var stage: Option<Stage>, stageDeadline: nat := None, deadline;
    observations, outcome := [], Complete;
    for k := 0 to |plan|
      invariant |observations| == k && AllPassed(observations)
      invariant AllClean(observations) && world.disturbances == old(world.disturbances)
      invariant Progress(plan, observations, start, world.now, stage, stageDeadline)
    {
      var probe := plan[k];
      assert probe.stage == StageAt(k);
      StageFits(plan, observations, start, world.now, stage, stageDeadline);
      ghost var before, inStage, began := stageDeadline, stage, world.now;
      if Some(probe.stage) != stage {
        stage := Some(probe.stage);
        stageDeadline := Min(deadline, world.now + StageLimit(probe.stage));
      }
      var remaining := Min(deadline, stageDeadline) - world.now - RESERVE;
      if remaining <= 0 {
        ProgressMeans(plan, observations, start, world.now, inStage, before);
        return DeadlineExhausted, observations;
      }
      var o := RunProbe(world, probe, Min(probe.timeout, remaining));
      ProgressStep(plan, observations, o, start, began, inStage, before, stageDeadline);
      observations := observations + [o];
      if !o.passed {
        assert observations[k] == o;
        ProgressMeans(plan, observations, start, world.now, stage, stageDeadline);
        return FailedObservation, observations;
      }
    }
    ProgressMeans(plan, observations, start, world.now, stage, stageDeadline);
  }
}
