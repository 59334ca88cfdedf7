/** scripts/coverage_debt.py: the measurements the tracker keeps over a run of
    updates. */
module TrackerHistory {

  datatype Measurement = Measurement(sourceCommit: string, statements: int, covered: int, missed: int, percent: string)

  datatype State = State(current: Measurement, previous: Measurement, best: Measurement)

  datatype Past = NoState | Kept(state: State)

  predicate IsBetter(candidate: Measurement, incumbent: Measurement) {
    if candidate.statements == 0 then incumbent.statements != 0
    else if incumbent.statements == 0 then true
    else candidate.covered * incumbent.statements > incumbent.covered * candidate.statements
  }

  /** The state one update writes. */
  function Step(past: Past, current: Measurement): State {
    match past
    case NoState => State(current, current, current)
    case Kept(last) => State(current, last.current, if IsBetter(current, last.best) then current else last.best)
  }

  /** The state after a run of updates. */
  function After(run: seq<Measurement>): Past {
    if run == [] then NoState else Kept(Step(After(run[..|run| - 1]), run[|run| - 1]))
  }

  /** The same, from what an earlier run left. */
  function Resumed(past: Past, run: seq<Measurement>): Past {
    if run == [] then past else Kept(Step(Resumed(past, run[..|run| - 1]), run[|run| - 1]))
  }

  lemma ResumedAppend(past: Past, run: seq<Measurement>, current: Measurement)
    ensures Resumed(past, run + [current]) == Kept(Step(Resumed(past, run), current))
  {
    assert (run + [current])[..|run|] == run;
  }

  /** A resumed run continues the run before it. */
  lemma {:induction false} ResumedContinues(earlier: seq<Measurement>, run: seq<Measurement>)
    ensures Resumed(After(earlier), run) == After(earlier + run)
  {
    if run == [] {
      assert earlier + run == earlier;
    } else {
      ResumedContinues(earlier, run[..|run| - 1]);
      assert (earlier + run)[..|earlier + run| - 1] == earlier + run[..|run| - 1];
    }
  }

  ghost predicate Counted(run: seq<Measurement>) {
    forall i | 0 <= i < |run| :: run[i].statements >= 0
  }

  predicate AtLeast(a: Measurement, b: Measurement) {
    a.covered * b.statements >= b.covered * a.statements
  }

  /** `best` is the earliest measurement of run[from..] of the highest ratio. */
  ghost predicate EarliestMaximum(run: seq<Measurement>, from: nat, best: nat) {
    && from <= best < |run|
    && (forall i | from <= i < |run| :: AtLeast(run[best], run[i]))
    && (forall i | from <= i < best :: !AtLeast(run[i], run[best]))
  }

  lemma CrossTransitive(a: Measurement, b: Measurement, c: Measurement)
    requires a.statements > 0 && b.statements > 0 && c.statements > 0
    ensures AtLeast(a, b) && AtLeast(b, c) ==> AtLeast(a, c)
    ensures !AtLeast(b, a) && AtLeast(b, c) ==> !AtLeast(c, a)
  {
    var x, y := a.covered * c.statements, c.covered * a.statements;
    if AtLeast(a, b) && AtLeast(b, c) {
      Chain(a, b, c);
      Cancel(x, y, b.statements);
    }
    if !AtLeast(b, a) && AtLeast(b, c) {
      Chain(a, b, c);
      Cancel(x, y, b.statements);
    }
  }

  /** Two comparisons multiplied into one. */
  lemma Chain(a: Measurement, b: Measurement, c: Measurement)
    requires a.statements > 0 && b.statements > 0 && c.statements > 0 && AtLeast(b, c)
    ensures AtLeast(a, b) ==> a.covered * c.statements * b.statements >= c.covered * a.statements * b.statements
    ensures !AtLeast(b, a) ==> a.covered * c.statements * b.statements > c.covered * a.statements * b.statements
  {
    Swap(a.covered, b.statements, c.statements);
    Swap(b.covered, a.statements, c.statements);
    Swap(c.covered, b.statements, a.statements);
    Scale(b.covered * c.statements, c.covered * b.statements, a.statements);
    Scale(a.covered * b.statements, b.covered * a.statements, c.statements);
  }

  lemma Swap(a: int, b: int, c: int)
    ensures a * b * c == a * c * b
  {
  }

  lemma Scale(a: int, b: int, c: int)
    requires c > 0
    ensures a > b ==> a * c > b * c
    ensures a >= b ==> a * c >= b * c
  {
  }

  lemma Cancel(a: int, b: int, c: int)
    requires c > 0
    ensures a * c >= b * c ==> a >= b
    ensures a * c > b * c ==> a > b
  {
    Scale(b, a, c);
  }

  /** Where the last stretch of measurements that all have statements, or all have
      none, begins. */
  function StretchStart(run: seq<Measurement>): (start: nat)
    requires run != []
    ensures start < |run|
  {
    var last := |run| - 1;
    if last > 0 && (run[last].statements == 0) == (run[last - 1].statements == 0)
    then StretchStart(run[..last])
    else last
  }

  lemma {:induction false} StretchIsUniform(run: seq<Measurement>)
    requires run != []
    ensures forall i | StretchStart(run) <= i < |run| :: (run[i].statements == 0) == (run[|run| - 1].statements == 0)
    ensures StretchStart(run) > 0 ==>
              (run[StretchStart(run) - 1].statements == 0) != (run[|run| - 1].statements == 0)
  {
    var init := run[..|run| - 1];
    if |run| > 1 { StretchIsUniform(init); }
  }

  /** After any run of updates, the state holds the last measurement, the one
      before it, and the best of the last stretch: its first measurement if it has
      no statements, otherwise the earliest of the highest ratio. */
  lemma {:induction false} HistoryExact(run: seq<Measurement>) returns (best: nat)
    requires run != [] && Counted(run)
    ensures After(run).Kept?
    ensures var s := After(run).state;
            && s.current == run[|run| - 1]
            && s.previous == (if |run| > 1 then run[|run| - 2] else run[0])
            && best < |run| && s.best == run[best]
    ensures if run[|run| - 1].statements == 0 then best == StretchStart(run)
            else EarliestMaximum(run, StretchStart(run), best)
  {
    StretchIsUniform(run);
    var init, last := run[..|run| - 1], run[|run| - 1];
    if init == [] {
      best := 0;
    } else {
      var before := HistoryExact(init);
      StretchIsUniform(init);
      assert init[|init| - 1] == run[|run| - 2];
      if (last.statements == 0) != (init[|init| - 1].statements == 0) {
        best := |run| - 1;
        assert (init[before].statements == 0) == (init[|init| - 1].statements == 0);
      } else {
        best := if IsBetter(last, init[before]) then |run| - 1 else before;
        if last.statements != 0 { MaximumGrows(run, StretchStart(run), before, best); }
      }
    }
  }

  lemma MaximumGrows(run: seq<Measurement>, from: nat, before: nat, best: nat)
    requires run != [] && EarliestMaximum(run[..|run| - 1], from, before)
    requires forall i | from <= i < |run| :: run[i].statements > 0
    requires best == if IsBetter(run[|run| - 1], run[before]) then |run| - 1 else before
    ensures EarliestMaximum(run, from, best)
  {
    var init, last := run[..|run| - 1], run[|run| - 1];
    forall i | from <= i < |init|
      ensures AtLeast(run[best], run[i]) && (i < best ==> !AtLeast(run[i], run[best]))
    {
      assert init[i] == run[i] && init[before] == run[before] && AtLeast(init[before], init[i]);
      CrossTransitive(last, run[before], run[i]);
    }
  }

  /** While every measurement has statements, the best is the earliest of the
      highest ratio in the whole run. */
  lemma HighWater(run: seq<Measurement>) returns (best: nat)
    requires run != [] && forall i | 0 <= i < |run| :: run[i].statements > 0
    ensures EarliestMaximum(run, 0, best) && After(run).Kept? && After(run).state.best == run[best]
  {
    best := HistoryExact(run);
    StretchIsUniform(run);
  }

  /** A measurement without statements makes the tracker forget: afterwards a
      lower ratio counts as best. */
  lemma EmptyMeasurementResets()
    ensures var full, none, half := Measurement("", 4, 4, 0, ""), Measurement("", 0, 0, 0, ""), Measurement("", 4, 2, 2, "");
            After([full, none, half]) == Kept(State(half, none, half)) && !AtLeast(half, full)
  {
    var full, none, half := Measurement("", 4, 4, 0, ""), Measurement("", 0, 0, 0, ""), Measurement("", 4, 2, 2, "");
    var run := [full, none, half];
    assert run[..2] == [full, none] && run[..2][..1] == [full] && [full][..0] == [];
    assert After([full]) == Kept(State(full, full, full));
    assert After([full, none]) == Kept(State(none, full, none));
  }
}
