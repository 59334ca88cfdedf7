/** scripts/coverage_debt.py: the comments of the tracker issue, updated run by run. */
module Tracker {
  import opened Basics
  import opened Text
  import opened Markers
  import opened TrackerHistory
  import opened StateJson
  import opened TrackerRows
  import opened TrackerComment
  import opened TrackerCells
  import TrackerLayout

  datatype Comment = Comment(author: Option<string>, body: Option<string>)

  datatype Action = Created | Updated

  /** How the request that writes the comment ends: answered, refused without effect, or
      with its effect but without an answer. */
  datatype Delivery = Answered | Refused | AnswerLost

  type Outcome = Result<Action, TrackerError>

  /** The comment was written, although the program may not know it. */
  predicate Wrote(outcome: Outcome, delivery: Delivery) {
    outcome.Success? || (outcome == Failure(RequestFailed) && delivery.AnswerLost?)
  }

  /** Between two updates, others write comments of their own. */
  datatype Event = Reported(report: TrackedReport, delivery: Delivery) | Said(comment: Comment)

  function MarksIn(comment: Comment, bot: string, marker: string): nat
    requires marker != ""
  {
    if comment.author == Some(bot) && comment.body.Some? then Count(comment.body.value, marker) else 0
  }

  /** Only the bot's own comments count. */
  lemma MarksInMeans(comment: Comment, bot: string, marker: string)
    requires marker != ""
    ensures MarksIn(comment, bot, marker) > 0 <==>
              comment.author == Some(bot) && comment.body.Some? && Contains(comment.body.value, marker)
    ensures comment.author == Some(bot) && comment.body.Some? ==> MarksIn(comment, bot, marker) == Count(comment.body.value, marker)
  {
    if comment.body.Some? { CountZero(comment.body.value, marker); }
  }

  function Marks(comments: seq<Comment>, bot: string, marker: string): nat
    requires marker != ""
  {
    if comments == [] then 0
    else Marks(comments[..|comments| - 1], bot, marker) + MarksIn(comments[|comments| - 1], bot, marker)
  }

  lemma MarksAppend(comments: seq<Comment>, comment: Comment, bot: string, marker: string)
    requires marker != ""
    ensures Marks(comments + [comment], bot, marker) == Marks(comments, bot, marker) + MarksIn(comment, bot, marker)
  {
    assert (comments + [comment])[..|comments|] == comments;
  }

  lemma {:induction false} MarksReplace(comments: seq<Comment>, k: nat, comment: Comment, bot: string, marker: string)
    requires marker != "" && k < |comments|
    ensures Marks(comments[k := comment], bot, marker)
         == Marks(comments, bot, marker) - MarksIn(comments[k], bot, marker) + MarksIn(comment, bot, marker)
  {
    var n := |comments| - 1;
    if k < n {
      MarksReplace(comments[..n], k, comment, bot, marker);
      assert comments[k := comment][..n] == comments[..n][k := comment];
    } else {
      assert comments[k := comment][..n] == comments[..n];
    }
  }

  lemma {:induction false} MarksAtLeast(comments: seq<Comment>, k: nat, bot: string, marker: string)
    requires marker != "" && k < |comments|
    ensures MarksIn(comments[k], bot, marker) <= Marks(comments, bot, marker)
    ensures forall j | 0 <= j < |comments| && j != k ::
              MarksIn(comments[k], bot, marker) + MarksIn(comments[j], bot, marker) <= Marks(comments, bot, marker)
  {
    var n := |comments| - 1;
    if k < n {
      MarksAtLeast(comments[..n], k, bot, marker);
      forall j | 0 <= j < n && j != k
        ensures MarksIn(comments[k], bot, marker) + MarksIn(comments[j], bot, marker) <= Marks(comments, bot, marker)
      {
        assert comments[..n][j] == comments[j];
      }
    } else {
      forall j | 0 <= j < n
        ensures MarksIn(comments[j], bot, marker) <= Marks(comments[..n], bot, marker)
      {
        MarksAtLeast(comments[..n], j, bot, marker);
        assert comments[..n][j] == comments[j];
      }
    }
  }

  predicate Marked(layout: Layout) {
    layout.report != "" && layout.start != "" && layout.end != ""
  }

  /** The layout is well formed and its decoder undoes its encoder. Folded until Same
      names the layout. */
  ghost predicate Sound(layout: Layout, loads: string -> Option<Decoded>) {
    Marked(layout) && forall l | Same(l, layout) :: WellFormed(l) && Inverts(l, loads)
  }

  /** The program's own wording is sound with any decoder that undoes its encoder. */
  lemma StandardIsSound(loads: string -> Option<Decoded>)
    requires forall s | ValidState(s) :: loads(EncodeState(s)) == Some(Decoded(SCHEMA_VERSION, s))
    ensures Sound(TrackerLayout.Standard(), loads)
  {
    TrackerLayout.StandardWellFormed();
    var layout := TrackerLayout.Standard();
    assert Marked(layout) && Inverts(layout, loads);
  }

  /** What the comments say of the runs so far: a state, or nothing that can be read. */
  datatype Status = Following(past: Past) | Stuck

  /** The comments hold the state in the only marker of the bot's comments, or have no
      marker; or their markers jam every further update. */
  ghost predicate Holds(comments: seq<Comment>, status: Status, layout: Layout, loads: string -> Option<Decoded>, bot: string)
    requires Marked(layout)
  {
    match status
    case Following(NoState) => Marks(comments, bot, layout.report) == 0
    case Following(Kept(state)) =>
      && Marks(comments, bot, layout.report) == 1 && ValidState(state)
      && exists k | 0 <= k < |comments| :: HeldBy(comments[k], state, layout, loads, bot)
    case Stuck => Marks(comments, bot, layout.report) > 1 || exists k | 0 <= k < |comments| :: Jams(comments[k], layout, loads, bot)
  }

  ghost predicate HeldBy(comment: Comment, state: State, layout: Layout, loads: string -> Option<Decoded>, bot: string)
    requires Marked(layout)
  {
    MarksIn(comment, bot, layout.report) == 1 && Parse(layout, comment.body.value, loads) == Success(state)
  }

  /** A comment of the bot with two markers, or one whose state cannot be read. */
  ghost predicate Jams(comment: Comment, layout: Layout, loads: string -> Option<Decoded>, bot: string)
    requires Marked(layout)
  {
    || MarksIn(comment, bot, layout.report) > 1
    || (MarksIn(comment, bot, layout.report) == 1 && Parse(layout, comment.body.value, loads).Failure?)
  }

  /** The summary contains none of the three markers. */
  predicate Harmless(layout: Layout, rows: seq<FileRow>) {
    Clean(layout, rows) && !Contains(layout.summary(rows), layout.report)
  }

  /** A rendered comment of the bot holds its state, or jams if its summary contains a
      marker. */
  lemma RenderedHolds(layout: Layout, loads: string -> Option<Decoded>, bot: string, report: TrackedReport, s: State, repository: string)
    requires Sound(layout, loads) && ValidState(s) && Render(layout, report, s, repository).Success?
    ensures var comment := Comment(Some(bot), Some(Render(layout, report, s, repository).value));
            if Harmless(layout, report.rows) then HeldBy(comment, s, layout, loads, bot) else Jams(comment, layout, loads, bot)
  {
    assert Same(layout, layout);
    RoundTrip(layout, report, s, repository, loads);
    ReportMarkerOnce(layout, report.rows, s, repository);
    CountZero(layout.summary(report.rows), layout.report);
  }

  /** In the program's wording and with the numbers of a built report, only the report
      marker itself can harm, and only in the cell of a path or of labelled ranges. */
  lemma ProgramHarmless(rows: seq<FileRow>)
    requires forall r | r in rows :: OneLine(r) && FlatNumbers(r)
    ensures Harmless(TrackerLayout.Standard(), rows) <==>
              forall r | r in rows :: !CellsHold(r, TrackerLayout.REPORT_MARKER)
  {
    TrackerLayout.OneLineIsClean(rows);
    ReportMarkerIsCell();
    SummaryHolds(rows, TrackerLayout.REPORT_MARKER);
  }

  /** Every comment the program renders for a built report parses back to its state. */
  lemma ProgramRoundTrip(report: TrackedReport, s: State, repository: string, loads: string -> Option<Decoded>)
    requires forall r | r in report.rows :: OneLine(r)
    requires forall s | ValidState(s) :: loads(EncodeState(s)) == Some(Decoded(SCHEMA_VERSION, s))
    requires ValidState(s) && Render(TrackerLayout.Standard(), report, s, repository).Success?
    ensures TrackerLayout.Standard().start != "" && TrackerLayout.Standard().end != ""
    ensures Parse(TrackerLayout.Standard(), Render(TrackerLayout.Standard(), report, s, repository).value, loads) == Success(s)
  {
    var layout := TrackerLayout.Standard();
    StandardIsSound(loads);
    TrackerLayout.OneLineIsClean(report.rows);
    assert Same(layout, layout);
    RoundTrip(layout, report, s, repository, loads);
  }

  /** The comment is the bot's rendering of the state. */
  ghost predicate Renders(layout: Layout, report: TrackedReport, s: State, repository: string, bot: string, comment: Option<Comment>) {
    && Render(layout, report, s, repository).Success?
    && comment == Some(Comment(Some(bot), Some(Render(layout, report, s, repository).value)))
  }

  /** The one comment added. */
  function Posted(before: seq<Comment>, after: seq<Comment>): Option<Comment> {
    if |after| == |before| + 1 && after[..|before|] == before then Some(after[|before|]) else None
  }

  lemma StepValid(past: Past, current: Measurement)
    requires ValidMeasurement(current) && (past.Kept? ==> ValidState(past.state))
    ensures ValidState(Step(past, current))
  {
  }

  class Issue {
    const layout: Layout
    const loads: string -> Option<Decoded>
    const bot: string
    var comments: seq<Comment>

    constructor (layout: Layout, loads: string -> Option<Decoded>, bot: string, comments: seq<Comment>)
      ensures this.layout == layout && this.loads == loads && this.bot == bot && this.comments == comments
    {
      this.layout, this.loads, this.bot, this.comments := layout, loads, bot, comments;
    }

    /** The first of the bot's comments that has the marker, and how many markers
        there are. */
    method FindMarked() returns (occurrences: nat, existing: Option<nat>)
      requires Marked(layout)
      ensures occurrences == Marks(comments, bot, layout.report)
      ensures existing.None? <==> occurrences == 0
      ensures existing.Some? ==> existing.value < |comments| && MarksIn(comments[existing.value], bot, layout.report) > 0
    {
      occurrences, existing := 0, None;
      for i := 0 to |comments|
        invariant occurrences == Marks(comments[..i], bot, layout.report)
        invariant existing.None? <==> occurrences == 0
        invariant existing.Some? ==> existing.value < i && MarksIn(comments[existing.value], bot, layout.report) > 0
      {
        var count := MarksIn(comments[i], bot, layout.report);
        MarksAppend(comments[..i], comments[i], bot, layout.report);
        assert comments[..i + 1] == comments[..i] + [comments[i]];
        occurrences := occurrences + count;
        if existing.None? && count > 0 { existing := Some(i); }
      }
      assert comments[..|comments|] == comments;
    }

    /** One update: it creates the bot's comment or replaces the body of the marked
        one. An update changes nothing unless it wrote, and it wrote if it succeeded. */
    method Update(repository: string, report: TrackedReport, delivery: Delivery, ghost status: Status) returns (r: Outcome)
      requires Sound(layout, loads)
      modifies this`comments
      ensures !Wrote(r, delivery) ==> comments == old(comments)
      ensures r.Success? ==> delivery.Answered? && (r.value == Created <==> Marks(old(comments), bot, layout.report) == 0)
      ensures r == Failure(RequestFailed) ==> !delivery.Answered?
      ensures r == Failure(InvalidRepository) <==> !ValidRepository(repository)
      ensures r == Failure(InvalidMeasurement) <==> ValidRepository(repository) && !ValidMeasurement(report.measurement)
      ensures r == Failure(MultipleMarkers) <==>
                && ValidRepository(repository) && ValidMeasurement(report.measurement)
                && Marks(old(comments), bot, layout.report) > 1
      ensures Wrote(r, delivery) && Marks(old(comments), bot, layout.report) == 0 ==>
                Renders(layout, report, Step(NoState, report.measurement), repository, bot, Posted(old(comments), comments))
      ensures Wrote(r, delivery) && Marks(old(comments), bot, layout.report) != 0 ==> exists k | 0 <= k < |old(comments)| ::
                && MarksIn(old(comments)[k], bot, layout.report) == 1
                && var parsed := Parse(layout, old(comments)[k].body.value, loads);
                && parsed.Success? && |comments| == |old(comments)|
                && Renders(layout, report, Step(Kept(parsed.value), report.measurement), repository, bot, Some(comments[k]))
                && comments == old(comments)[k := comments[k]]
      ensures Holds(old(comments), status, layout, loads, bot) ==>
                match status
                case Stuck => !Wrote(r, delivery)
                case Following(past) =>
                  && (Wrote(r, delivery) <==>
                        && ValidRepository(repository) && ValidMeasurement(report.measurement) && !delivery.Refused?
                        && Render(layout, report, Step(past, report.measurement), repository).Success?)
                  && (Wrote(r, delivery) ==> Holds(comments, Next(layout, past, report), layout, loads, bot))
                  && (Wrote(r, delivery) ==> (r.Success? <==> delivery.Answered?))
                  && (r.Success? ==> (r.value == Created <==> past == NoState))
    {
      if !ValidRepository(repository) { return Failure(InvalidRepository); }
      if !ValidMeasurement(report.measurement) { return Failure(InvalidMeasurement); }
      var occurrences, existing := FindMarked();
      if occurrences == 0 { NoMarksHold(comments, status, layout, loads, bot); }
      if occurrences > 1 { return Failure(MultipleMarkers); }
      var state := Step(NoState, report.measurement);
      if existing.Some? {
        var k := existing.value;
        MarksAtLeast(comments, k, bot, layout.report);
        HolderUnique(comments, k, status, layout, loads, bot);
        var parsed := Parse(layout, comments[k].body.value, loads);
        if parsed.Failure? { return Failure(parsed.error); }
        state := Step(Kept(parsed.value), report.measurement);
        StepValid(Kept(parsed.value), report.measurement);
      }
      r := Write(repository, report, state, existing, delivery);
    }

    /** Renders the state and writes it to a new comment or over the marked one. */
    method Write(repository: string, report: TrackedReport, state: State, existing: Option<nat>, delivery: Delivery) returns (r: Outcome)
      requires Sound(layout, loads) && ValidState(state) && ValidRepository(repository)
      requires if existing.None? then Marks(comments, bot, layout.report) == 0
               else existing.value < |comments| && MarksIn(comments[existing.value], bot, layout.report) == 1
                    && Marks(comments, bot, layout.report) == 1
      modifies this`comments
      ensures Wrote(r, delivery) <==> Render(layout, report, state, repository).Success? && !delivery.Refused?
      ensures !Wrote(r, delivery) ==> comments == old(comments)
      ensures r.Success? ==> delivery.Answered? && r.value == if existing.None? then Created else Updated
      ensures r.Failure? ==> r.error == TooLarge || (r.error == RequestFailed && !delivery.Answered?)
      ensures Wrote(r, delivery) ==>
                && Holds(comments, if Harmless(layout, report.rows) then Following(Kept(state)) else Stuck, layout, loads, bot)
                && match existing
                   case None => Renders(layout, report, state, repository, bot, Posted(old(comments), comments))
                   case Some(k) =>
                     && |comments| == |old(comments)|
                     && Renders(layout, report, state, repository, bot, Some(comments[k]))
                     && comments == old(comments)[k := comments[k]]
    {
      var body := Render(layout, report, state, repository);
      if body.Failure? { return Failure(body.error); }
      if delivery.Refused? { return Failure(RequestFailed); }
      var comment := Comment(Some(bot), Some(body.value));
      RenderedHolds(layout, loads, bot, report, state, repository);
      if existing.None? {
        MarksAppend(comments, comment, bot, layout.report);
        comments := comments + [comment];
        assert comments[|comments| - 1] == comment;
        return if delivery.Answered? then Success(Created) else Failure(RequestFailed);
      }
      MarksReplace(comments, existing.value, comment, bot, layout.report);
      comments := comments[existing.value := comment];
      assert comments[existing.value] == comment;
      r := if delivery.Answered? then Success(Updated) else Failure(RequestFailed);
    }

    /** The comments say what these events made of them. Folded until Same names that
        status. */
    ghost predicate Remembers(start: Status, events: seq<Event>, outcomes: seq<Option<Outcome>>)
      requires Marked(layout)
      reads this
    {
      |events| == |outcomes| && forall s | Same(s, StatusAfter(layout, start, events, outcomes)) :: Holds(comments, s, layout, loads, bot)
    }

    method Take(repository: string, event: Event, ghost start: Status, ghost events: seq<Event>, ghost outcomes: seq<Option<Outcome>>)
      returns (outcome: Option<Outcome>)
      requires Sound(layout, loads) && Foreign(event, bot) && Remembers(start, events, outcomes)
      modifies this`comments
      ensures outcome.Some? <==> event.Reported?
      ensures event.Said? ==> comments == old(comments) + [event.comment]
      ensures Remembers(start, events + [event], outcomes + [outcome])
    {
      ghost var status := StatusAfter(layout, start, events, outcomes);
      assert Same(status, status);
      match event {
        case Said(comment) =>
          SaidKeeps(comments, comment, status, layout, loads, bot);
          comments := comments + [comment];
          outcome := None;
        case Reported(report, delivery) =>
          var r := Update(repository, report, delivery, status);
          outcome := Some(r);
      }
      StatusAppend(layout, start, events, outcomes, event, outcome);
    }

    /** A run of updates among the comments of others, on any issue. As long as no
        report that was written had a marker in its summary, exactly one marker remains,
        and it holds the state of the written updates, continued from the state the issue
        held before, also when answers are lost; after one had, no update writes. */
    method Run(repository: string, events: seq<Event>) returns (outcomes: seq<Option<Outcome>>)
      requires Sound(layout, loads)
      requires forall i | 0 <= i < |events| :: Foreign(events[i], bot)
      modifies this`comments
      ensures |outcomes| == |events|
      ensures forall i | 0 <= i < |events| :: outcomes[i].Some? <==> events[i].Reported?
      ensures forall start | Holds(old(comments), start, layout, loads, bot) ::
                Holds(comments, StatusAfter(layout, start, events, outcomes), layout, loads, bot)
    {
      ghost var held := SomeStatus(comments, layout, loads, bot);
      ghost var before := comments;
      outcomes := RunAll(repository, events, held);
      ghost var after := StatusAfter(layout, held, events, outcomes);
      assert Same(after, after);
      forall start | Holds(before, start, layout, loads, bot)
        ensures Holds(comments, StatusAfter(layout, start, events, outcomes), layout, loads, bot)
      {
        StatusUnique(before, start, held, layout, loads, bot);
      }
    }

    method RunAll(repository: string, events: seq<Event>, ghost start: Status) returns (outcomes: seq<Option<Outcome>>)
      requires Sound(layout, loads)
      requires Holds(comments, start, layout, loads, bot)
      requires forall i | 0 <= i < |events| :: Foreign(events[i], bot)
      modifies this`comments
      ensures |outcomes| == |events| && Remembers(start, events, outcomes)
      ensures forall i | 0 <= i < |events| :: outcomes[i].Some? <==> events[i].Reported?
    {
      outcomes := [];
      ghost var done: seq<Event> := [];
      StatusAtStart(layout, start);
      for i := 0 to |events|
        invariant |outcomes| == i && done == events[..i] && Remembers(start, done, outcomes)
        invariant forall j | 0 <= j < i :: outcomes[j].Some? <==> events[j].Reported?
      {
        var outcome := Take(repository, events[i], start, done, outcomes);
        outcomes := outcomes + [outcome];
        done := done + [events[i]];
      }
      assert done == events;
    }
  }

  lemma StatusAtStart(layout: Layout, start: Status)
    ensures StatusAfter(layout, start, [], []) == start
  {
  }

  /** Whatever the comments are, they have a status, */
  lemma SomeStatus(comments: seq<Comment>, layout: Layout, loads: string -> Option<Decoded>, bot: string) returns (status: Status)
    requires Marked(layout)
    ensures Holds(comments, status, layout, loads, bot)
  {
    var n := Marks(comments, bot, layout.report);
    if n == 0 {
      status := Following(NoState);
    } else if n > 1 {
      status := Stuck;
    } else {
      var k := SomeMarked(comments, layout.report, bot);
      MarksAtLeast(comments, k, bot, layout.report);
      var parsed := Parse(layout, comments[k].body.value, loads);
      status := if parsed.Failure? then Stuck else Following(Kept(parsed.value));
      assert if parsed.Failure? then Jams(comments[k], layout, loads, bot) else HeldBy(comments[k], parsed.value, layout, loads, bot);
    }
  }

  lemma {:induction false} SomeMarked(comments: seq<Comment>, marker: string, bot: string) returns (k: nat)
    requires marker != "" && Marks(comments, bot, marker) > 0
    ensures k < |comments| && MarksIn(comments[k], bot, marker) > 0
  {
    var n := |comments| - 1;
    if MarksIn(comments[n], bot, marker) > 0 { k := n; } else { k := SomeMarked(comments[..n], marker, bot); }
  }

  /** and only one. */
  lemma StatusUnique(comments: seq<Comment>, x: Status, y: Status, layout: Layout, loads: string -> Option<Decoded>, bot: string)
    requires Marked(layout) && Holds(comments, x, layout, loads, bot) && Holds(comments, y, layout, loads, bot)
    ensures x == y
  {
    var n := Marks(comments, bot, layout.report);
    if n == 0 {
      NoMarksHold(comments, x, layout, loads, bot);
      NoMarksHold(comments, y, layout, loads, bot);
    } else if n == 1 {
      var k := SomeMarked(comments, layout.report, bot);
      HolderUnique(comments, k, x, layout, loads, bot);
      HolderUnique(comments, k, y, layout, loads, bot);
    }
  }

  /** The bot's account writes through the updater only. */
  predicate Foreign(event: Event, bot: string) {
    event.Said? ==> event.comment.author != Some(bot)
  }

  /** What a written update makes of the state. */
  function Next(layout: Layout, past: Past, report: TrackedReport): Status {
    if Harmless(layout, report.rows) then Following(Kept(Step(past, report.measurement))) else Stuck
  }

  /** The measurements that were written. */
  function Written(events: seq<Event>, outcomes: seq<Option<Outcome>>): seq<Measurement>
    requires |events| == |outcomes|
  {
    if events == [] then []
    else
      var n := |events| - 1;
      Written(events[..n], outcomes[..n]) + Gained(events[n], outcomes[n])
  }

  function Gained(event: Event, outcome: Option<Outcome>): seq<Measurement> {
    if event.Reported? && outcome.Some? && Wrote(outcome.value, event.delivery) then [event.report.measurement] else []
  }

  lemma WrittenGain(events: seq<Event>, outcomes: seq<Option<Outcome>>, event: Event, outcome: Option<Outcome>)
    requires |events| == |outcomes|
    ensures Written(events + [event], outcomes + [outcome]) == Written(events, outcomes) + Gained(event, outcome)
  {
    assert (events + [event])[..|events|] == events && (outcomes + [outcome])[..|outcomes|] == outcomes;
  }

  /** No report that was written had a marker in its summary. */
  ghost predicate AllHarmless(layout: Layout, events: seq<Event>, outcomes: seq<Option<Outcome>>)
    requires |events| == |outcomes|
  {
    forall i | 0 <= i < |events| && Gained(events[i], outcomes[i]) != [] :: Harmless(layout, events[i].report.rows)
  }

  /** What a run makes of the status it starts from. */
  ghost function StatusAfter(layout: Layout, start: Status, events: seq<Event>, outcomes: seq<Option<Outcome>>): Status
    requires |events| == |outcomes|
  {
    if start.Following? && AllHarmless(layout, events, outcomes)
    then Following(Resumed(start.past, Written(events, outcomes))) else Stuck
  }

  lemma HarmlessAppend(layout: Layout, events: seq<Event>, outcomes: seq<Option<Outcome>>, event: Event, outcome: Option<Outcome>)
    requires |events| == |outcomes|
    ensures AllHarmless(layout, events + [event], outcomes + [outcome]) <==>
              AllHarmless(layout, events, outcomes) && (Gained(event, outcome) != [] ==> Harmless(layout, event.report.rows))
  {
    var e, o := events + [event], outcomes + [outcome];
    if AllHarmless(layout, e, o) {
      forall i | 0 <= i < |events| && Gained(events[i], outcomes[i]) != [] ensures Harmless(layout, events[i].report.rows) {
        assert e[i] == events[i] && o[i] == outcomes[i];
      }
      assert e[|events|] == event && o[|events|] == outcome;
    }
  }

  /** The status after one more event. */
  ghost function Advanced(layout: Layout, status: Status, event: Event, outcome: Option<Outcome>): Status {
    if status.Stuck? || Gained(event, outcome) == [] then status else Next(layout, status.past, event.report)
  }

  lemma WrittenAppend(past: Past, events: seq<Event>, outcomes: seq<Option<Outcome>>, event: Event, outcome: Option<Outcome>)
    requires |events| == |outcomes|
    ensures var before, now := Written(events, outcomes), Written(events + [event], outcomes + [outcome]);
            Resumed(past, now) == if Gained(event, outcome) == [] then Resumed(past, before)
                                  else Kept(Step(Resumed(past, before), event.report.measurement))
  {
    var before, gained := Written(events, outcomes), Gained(event, outcome);
    WrittenGain(events, outcomes, event, outcome);
    if gained == [] {
      assert before + gained == before;
    } else {
      ResumedAppend(past, before, gained[0]);
      assert gained == [gained[0]];
    }
  }

  lemma StatusAppend(layout: Layout, start: Status, events: seq<Event>, outcomes: seq<Option<Outcome>>, event: Event, outcome: Option<Outcome>)
    requires |events| == |outcomes|
    ensures StatusAfter(layout, start, events + [event], outcomes + [outcome])
         == Advanced(layout, StatusAfter(layout, start, events, outcomes), event, outcome)
  {
    HarmlessAppend(layout, events, outcomes, event, outcome);
    if start.Following? { WrittenAppend(start.past, events, outcomes, event, outcome); }
  }

  lemma SaidKeeps(comments: seq<Comment>, comment: Comment, status: Status, layout: Layout, loads: string -> Option<Decoded>, bot: string)
    requires Marked(layout)
    requires Holds(comments, status, layout, loads, bot) && comment.author != Some(bot)
    ensures Holds(comments + [comment], status, layout, loads, bot)
  {
    var more := comments + [comment];
    MarksAppend(comments, comment, bot, layout.report);
    assert forall k | 0 <= k < |comments| :: more[k] == comments[k];
    match status
    case Following(NoState) =>
    case Following(Kept(state)) =>
      var k :| 0 <= k < |comments| && HeldBy(comments[k], state, layout, loads, bot);
      assert HeldBy(more[k], state, layout, loads, bot);
    case Stuck =>
      if k :| 0 <= k < |comments| && Jams(comments[k], layout, loads, bot) { assert Jams(more[k], layout, loads, bot); }
  }

  lemma NoMarksHold(comments: seq<Comment>, status: Status, layout: Layout, loads: string -> Option<Decoded>, bot: string)
    requires Marked(layout) && Marks(comments, bot, layout.report) == 0
    ensures Holds(comments, status, layout, loads, bot) <==> status == Following(NoState)
  {
    if k :| 0 <= k < |comments| && MarksIn(comments[k], bot, layout.report) > 0 { MarksAtLeast(comments, k, bot, layout.report); }
  }

  /** The only marked comment is the one that holds the state or jams. */
  lemma HolderUnique(comments: seq<Comment>, k: nat, status: Status, layout: Layout, loads: string -> Option<Decoded>, bot: string)
    requires Marked(layout)
    requires k < |comments| && MarksIn(comments[k], bot, layout.report) > 0 && Marks(comments, bot, layout.report) == 1
    ensures Holds(comments, status, layout, loads, bot) ==>
              match status
              case Following(NoState) => false
              case Following(Kept(state)) => HeldBy(comments[k], state, layout, loads, bot)
              case Stuck => Jams(comments[k], layout, loads, bot)
  {
    MarksAtLeast(comments, k, bot, layout.report);
  }
}
