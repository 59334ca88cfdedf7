/** scripts/coverage_debt.py: the wording of the tracker comment. */
module TrackerLayout {
  import opened Text
  import opened Markers
  import opened TrackerHistory
  import opened StateJson
  import opened TrackerRows
  import opened TrackerComment

  const NAME := "<!-- django-ray:coverage-debt"
  const REPORT_MARKER := NAME + "-latest-report -->"
  const STATE_START := NAME + "-state\n"
  const STATE_END := "\n--><!-- " + "/django-ray:coverage-debt-state -->"

  function Table(rows: seq<FileRow>): string {
    if rows == [] then "" else Table(rows[..|rows| - 1]) + ("\n" + RowText(rows[|rows| - 1]))
  }

  const SUMMARY_TITLE := "## Current uncovered debt\n\n"
  const SUMMARY_START := "The uploaded JSON and Markdown "
  const SUMMARY_MIDDLE := "artifacts retain each classification"
  const SUMMARY_DURABLE := " rationale. This durable comment"
  const SUMMARY_END := " keeps the exact ranges compact." + "\n\n"
  const SUMMARY_COUNTS := "| File | Statements | Covered | Missed "
  const SUMMARY_RANGES := "| Coverage | Classified uncovered "
  const SUMMARY_SIDES := "ranges |" + ("\n" + "|---|---:|---:|---:|---:|---|")
  const NO_DEBT_FILE := "\n" + "| _No uncovered package lines_ "
  const NO_DEBT_COUNTS := "| 0 | 0 | 0 | 100.00% | None |"

  function SummaryHead(): string {
    SUMMARY_TITLE + (SUMMARY_START + (SUMMARY_MIDDLE + (SUMMARY_DURABLE + (SUMMARY_END
    + (SUMMARY_COUNTS + (SUMMARY_RANGES + SUMMARY_SIDES))))))
  }

  function Summary(rows: seq<FileRow>): string {
    SummaryHead() + if rows == [] then NO_DEBT_FILE + NO_DEBT_COUNTS else Table(rows)
  }

  function MeasurementRow(name: string, m: Measurement, repository: string): string {
    "| " + name + " | [`" + m.sourceCommit[..if |m.sourceCommit| < 12 then |m.sourceCommit| else 12]
    + "`](https://github.com/" + repository + "/commit/" + m.sourceCommit
    + ") | " + Number(m.statements) + " | " + Number(m.covered) + " | " + Number(m.missed) + " | " + m.percent + "% |\n"
  }

  const TITLE := "\n# Latest coverage-debt report\n\n"
  const NOTE := [
    "This bot-owned comment is replaced", " in place. The first successful run", " seeds current, previous, and best",
    " with the same two-decimal", " line-coverage measurement.\n\n"]
  const COLUMNS := [
    "| Measurement | Source commit ", "| Statements | Covered | Missed ", "| Coverage |\n",
    "|---|---|---:|---:|---:|---:|\n"]

  function Preamble(): string { TITLE + Join(NOTE) + Join(COLUMNS) }

  function Head(s: State, repository: string): string
  {
    Preamble() + MeasurementRow("Current", s.current, repository) + MeasurementRow("Previous", s.previous, repository)
    + MeasurementRow("High water", s.best, repository) + "\n"
  }

  function Standard(): Layout {
    Layout(REPORT_MARKER, STATE_START, STATE_END, Head, Summary, EncodeState)
  }

  lemma {:induction false} JoinFlat(parts: seq<string>)
    requires forall part | part in parts :: Flat(part)
    ensures Flat(Join(parts))
  {
    if parts != [] {
      JoinFlat(parts[..|parts| - 1]);
      FlatAppend(Join(parts[..|parts| - 1]), parts[|parts| - 1]);
    }
  }

  lemma NoteFlat()
    ensures Flat(Join(NOTE))
  {
    NoteBeginsFlat();
    NoteEndsFlat();
    JoinFlat(NOTE);
  }

  lemma NoteBeginsFlat()
    ensures Flat(NOTE[0]) && Flat(NOTE[1]) && Flat(NOTE[2])
  {
  }

  lemma NoteEndsFlat()
    ensures Flat(NOTE[3]) && Flat(NOTE[4])
  {
  }

  lemma ColumnsFlat()
    ensures Flat(Join(COLUMNS))
  {
    assert Flat(COLUMNS[0]) && Flat(COLUMNS[1]) && Flat(COLUMNS[2]) && Flat(COLUMNS[3]);
    JoinFlat(COLUMNS);
  }

  lemma PreambleFlat()
    ensures Flat(Preamble())
  {
    assert Flat(TITLE);
    NoteFlat();
    ColumnsFlat();
    FlatAppend(TITLE, Join(NOTE));
    FlatAppend(TITLE + Join(NOTE), Join(COLUMNS));
  }

  lemma RepositoryFlat(repository: string)
    requires ValidRepository(repository)
    ensures Flat(repository)
  {
  }

  lemma RowFlat(name: string, m: Measurement, repository: string)
    requires ValidMeasurement(m) && Flat(repository) && Flat(name)
    ensures Flat(MeasurementRow(name, m, repository))
  {
    ValuesOf(m);
    var p := "| " + name + " | [`" + m.sourceCommit[..if |m.sourceCommit| < 12 then |m.sourceCommit| else 12] + "`](https://github.com/" + repository + "/commit/" + m.sourceCommit + ") | ";
    FlatAppend("| ", name);
    assert Flat(p);
  }

  lemma HeadFlat(s: State, repository: string)
    requires ValidState(s) && ValidRepository(repository)
    ensures Flat(Head(s, repository)) && Head(s, repository) != "" && Last(Head(s, repository)) == '\n'
  {
    PreambleFlat();
    RepositoryFlat(repository);
    RowFlat("Current", s.current, repository);
    RowFlat("Previous", s.previous, repository);
    RowFlat("High water", s.best, repository);
    HeadJoins(Preamble(), MeasurementRow("Current", s.current, repository), MeasurementRow("Previous", s.previous, repository),
      MeasurementRow("High water", s.best, repository));
  }

  lemma HeadJoins(a: string, b: string, c: string, d: string)
    requires Flat(a) && Flat(b) && Flat(c) && Flat(d)
    ensures Flat(a + b + c + d + "\n") && Last(a + b + c + d + "\n") == '\n'
  {
    FlatAppend(a, b);
    FlatAppend(a + b, c);
    FlatAppend(a + b + c, d);
    FlatAppend(a + b + c + d, "\n");
  }

  // ----- the summary -----

  /** The line breaks of a text neither follow an `e` nor precede a dash. */
  ghost predicate Tame(s: string) {
    forall i | 0 <= i < |s| && s[i] == '\n' :: (i > 0 ==> s[i - 1] != 'e') && (i + 1 < |s| ==> s[i + 1] != '-')
  }

  lemma TameAppend(a: string, b: string)
    requires Tame(a) && Tame(b)
    requires a != "" && b != "" && b[0] == '\n' ==> Last(a) != 'e'
    requires a != "" && b != "" && Last(a) == '\n' ==> b[0] != '-'
    ensures Tame(a + b) && (b != "" ==> Last(a + b) == Last(b)) && (a != "" ==> (a + b)[0] == a[0])
  {
    var s := a + b;
    forall i | 0 <= i < |s| && s[i] == '\n' ensures (i > 0 ==> s[i - 1] != 'e') && (i + 1 < |s| ==> s[i + 1] != '-') {
      if i < |a| { assert a[i] == '\n'; } else { assert b[i - |a|] == '\n'; }
    }
  }

  lemma LacksIsTame(s: string)
    requires Lacks(s, '\n')
    ensures Tame(s)
  {
  }

  lemma TitleTame()
    ensures Tame(SUMMARY_TITLE) && Last(SUMMARY_TITLE) == '\n' && SUMMARY_TITLE[0] == '#'
  {
  }

  /** A one-line piece that starts and ends as asked. */
  predicate Line(s: string) { s != "" && Lacks(s, '\n') }

  lemma StartLine()
    ensures Line(SUMMARY_START) && SUMMARY_START[0] == 'T'
  {
  }

  lemma MiddleLine() ensures Line(SUMMARY_MIDDLE) {}

  lemma DurableLine() ensures Line(SUMMARY_DURABLE) {}

  lemma EndTame()
    ensures Tame(SUMMARY_END) && Last(SUMMARY_END) == '\n' && SUMMARY_END[0] != '\n'
  {
    var text := " keeps the exact ranges compact.";
    assert Line(text) && Tame("\n\n");
    LacksIsTame(text);
    TameAppend(text, "\n\n");
  }

  lemma CountsLine()
    ensures Line(SUMMARY_COUNTS) && SUMMARY_COUNTS[0] == '|'
  {
  }

  lemma RangesLine()
    ensures Line(SUMMARY_RANGES)
  {
  }

  lemma SidesTame()
    ensures Tame(SUMMARY_SIDES) && Last(SUMMARY_SIDES) == '|' && SUMMARY_SIDES[0] == 'r'
  {
    var title, sides := "ranges |", "|---|---:|---:|---:|---:|---|";
    assert Line(title) && Line(sides);
    LacksIsTame(title);
    LacksIsTame(sides);
    TameAppend("\n", sides);
    TameAppend(title, "\n" + sides);
  }

  lemma NoDebtFileTame()
    ensures Tame(NO_DEBT_FILE) && NO_DEBT_FILE[0] == '\n' && Last(NO_DEBT_FILE) == ' '
  {
    var text := "| _No uncovered package lines_ ";
    assert Line(text);
    LacksIsTame(text);
    TameAppend("\n", text);
  }

  lemma NoDebtCountsLine()
    ensures Line(NO_DEBT_COUNTS) && Last(NO_DEBT_COUNTS) == '|'
  {
  }

  lemma NoDebtTame()
    ensures Tame(NO_DEBT_FILE + NO_DEBT_COUNTS) && Last(NO_DEBT_FILE + NO_DEBT_COUNTS) == '|'
    ensures (NO_DEBT_FILE + NO_DEBT_COUNTS)[0] == '\n'
  {
    NoDebtFileTame();
    NoDebtCountsLine();
    LacksIsTame(NO_DEBT_COUNTS);
    TameAppend(NO_DEBT_FILE, NO_DEBT_COUNTS);
  }

  /** The pieces of the head, whatever they are. */
  lemma HeadTame(title: string, start: string, middle: string, durable: string, end: string, counts: string, ranges: string, sides: string)
    requires Tame(title) && title != "" && title[0] == '#' && Tame(end) && end != "" && end[0] != '\n'
    requires Line(start) && start[0] == 'T' && Line(middle) && Line(durable) && Line(counts) && counts[0] == '|' && Line(ranges)
    requires Tame(sides) && sides != "" && sides[0] == 'r' && Last(sides) == '|'
    ensures var head := title + (start + (middle + (durable + (end + (counts + (ranges + sides))))));
            Tame(head) && head[0] == '#' && Last(head) == '|'
  {
    TameAppend(ranges, sides);
    TameAppend(counts, ranges + sides);
    TameAppend(end, counts + (ranges + sides));
    TameAppend(durable, end + (counts + (ranges + sides)));
    TameAppend(middle, durable + (end + (counts + (ranges + sides))));
    TameAppend(start, middle + (durable + (end + (counts + (ranges + sides)))));
    TameAppend(title, start + (middle + (durable + (end + (counts + (ranges + sides))))));
  }

  lemma SummaryHeadShape()
    ensures Tame(SummaryHead()) && SummaryHead() != "" && SummaryHead()[0] == '#' && Last(SummaryHead()) == '|'
  {
    TitleTame();
    StartLine();
    MiddleLine();
    DurableLine();
    EndTame();
    CountsLine();
    RangesLine();
    SidesTame();
    HeadTame(SUMMARY_TITLE, SUMMARY_START, SUMMARY_MIDDLE, SUMMARY_DURABLE, SUMMARY_END, SUMMARY_COUNTS, SUMMARY_RANGES, SUMMARY_SIDES);
  }

  lemma RowEnds(r: FileRow)
    ensures RowText(r) != "" && RowText(r)[0] == '|' && Last(RowText(r)) == '|'
  {
    var ranges := MarkdownCell(CompactRanges(r.ranges));
    FlatAppend(ranges, " |");
    FlatAppend(Numbers(r), ranges + " |");
    FlatAppend("` | ", Numbers(r) + (ranges + " |"));
    FlatAppend(MarkdownCell(r.path), "` | " + (Numbers(r) + (ranges + " |")));
    FlatAppend("| `", MarkdownCell(r.path) + ("` | " + (Numbers(r) + (ranges + " |"))));
  }

  lemma {:induction false} TableShape(rows: seq<FileRow>)
    requires rows != []
    ensures Table(rows) != "" && Table(rows)[0] == '\n' && Last(Table(rows)) == '|'
  {
    var init, last := rows[..|rows| - 1], rows[|rows| - 1];
    RowEnds(last);
    if init != [] { TableShape(init); }
    FlatAppend(Table(init), "\n" + RowText(last));
  }

  lemma LineTame(r: FileRow)
    requires OneLine(r)
    ensures Tame("\n" + RowText(r))
  {
    RowEnds(r);
    RowIsOneLine(r);
    LacksIsTame(RowText(r));
    TameAppend("\n", RowText(r));
  }

  lemma {:induction false} TableTame(rows: seq<FileRow>)
    requires forall r | r in rows :: OneLine(r)
    ensures Tame(Table(rows))
  {
    if rows != [] {
      var init, last := rows[..|rows| - 1], rows[|rows| - 1];
      TableTame(init);
      if init != [] { TableShape(init); }
      LineTame(last);
      TameAppend(Table(init), "\n" + RowText(last));
    }
  }

  lemma SummaryShape(rows: seq<FileRow>)
    ensures Summary(rows) != "" && Summary(rows)[0] == '#' && Last(Summary(rows)) == '|'
    ensures (forall r | r in rows :: OneLine(r)) ==> Tame(Summary(rows))
  {
    if rows == [] { NoDebtTame(); } else { TableShape(rows); }
    if forall r | r in rows :: OneLine(r) { TableTame(rows); }
    SummaryHeadShape();
    JoinShape(SummaryHead(), if rows == [] then NO_DEBT_FILE + NO_DEBT_COUNTS else Table(rows));
  }

  lemma JoinShape(head: string, table: string)
    requires Tame(head) && head != "" && Last(head) == '|' && table != "" && Last(table) == '|'
    ensures head + table != "" && (head + table)[0] == head[0] && Last(head + table) == '|'
    ensures Tame(table) ==> Tame(head + table)
  {
    FlatAppend(head, table);
    if Tame(table) { TameAppend(head, table); }
  }

  lemma TameIsClean(s: string, start: string, end: string)
    requires Tame(s) && |start| > 1 && start[|start| - 1] == '\n' && start[|start| - 2] == 'e'
    requires |end| > 1 && end[0] == '\n' && end[1] == '-'
    ensures !Contains(s, start) && !Contains(s, end)
  {
    forall i: nat | i <= |s| ensures !OccursAt(s, i, start) && !OccursAt(s, i, end) {
      OccursChar(s, i, start, |start| - 1);
      OccursChar(s, i, start, |start| - 2);
      OccursChar(s, i, end, 0);
      OccursChar(s, i, end, 1);
    }
  }

  /** The summary of rows whose numbers are one line, as in every built report,
      contains neither state marker. */
  lemma OneLineIsClean(rows: seq<FileRow>)
    requires forall r | r in rows :: OneLine(r)
    ensures Clean(Standard(), rows)
  {
    SummaryShape(rows);
    StartMarkerShape();
    assert STATE_END[1] == '-' && STATE_END[0] == '\n';
    TameIsClean(Summary(rows), STATE_START, STATE_END);
  }

  lemma ContainsMiddle(a: string, b: string, c: string, word: string)
    requires Contains(b, word)
    ensures Contains(a + (b + c), word)
  {
    var i: nat :| i <= |b| && OccursAt(b, i, word);
    assert (a + (b + c))[|a| + i..|a| + i + |word|] == b[i..i + |word|];
    assert OccursAt(a + (b + c), |a| + i, word);
  }

  lemma RowContains(r: FileRow, word: string)
    requires Contains(r.statements, word)
    ensures Contains(RowText(r), word)
  {
    var more := MarkdownCell(CompactRanges(r.ranges)) + " |";
    ContainsMiddle("", r.statements, " | " + (r.covered + " | " + (r.missed + " | " + (r.percent + "% | "))), word);
    assert Contains(Numbers(r), word) by {
      assert "" + (r.statements + (" | " + (r.covered + " | " + (r.missed + " | " + (r.percent + "% | "))))) == Numbers(r);
    }
    ContainsMiddle("` | ", Numbers(r), more, word);
    ContainsMiddle(MarkdownCell(r.path), "` | " + (Numbers(r) + more), "", word);
    assert ("` | " + (Numbers(r) + more)) + "" == "` | " + (Numbers(r) + more);
    ContainsMiddle("| `", MarkdownCell(r.path) + ("` | " + (Numbers(r) + more)), "", word);
    assert (MarkdownCell(r.path) + ("` | " + (Numbers(r) + more))) + "" == MarkdownCell(r.path) + ("` | " + (Numbers(r) + more));
  }

  lemma SummaryContains(r: FileRow, word: string)
    requires Contains(RowText(r), word)
    ensures Contains(Summary([r]), word)
  {
    assert [r][..0] == [];
    var line := "\n" + RowText(r);
    ContainsMiddle("\n", RowText(r), "", word);
    assert "\n" + (RowText(r) + "") == line;
    assert Table([r]) == line by { assert Table([]) == ""; }
    ContainsMiddle(SummaryHead(), line, "", word);
    assert line + "" == line;
  }

  /** Only a hand-made report can spoil its comment: a count with a line break can
      bring a state marker into the summary. */
  lemma HandMadeRow(r: FileRow)
    requires r.statements == STATE_END
    ensures !OneLine(r) && !Clean(Standard(), [r])
  {
    assert STATE_END[0] == '\n' && STATE_END[0..|STATE_END|] == STATE_END;
    assert OccursAt(STATE_END, 0, STATE_END);
    RowContains(r, STATE_END);
    SummaryContains(r, STATE_END);
  }

  lemma ReportMarkerShape()
    ensures Marker(REPORT_MARKER, 0, -1)
  {
    OnlyAppend(NAME, "-latest-report -->", '<', 0, -1);
    OnlyAppend(NAME, "-latest-report -->", '\n', -1, -1);
  }

  lemma StartMarkerShape()
    ensures Marker(STATE_START, 0, |STATE_START| - 1) && STATE_START[|STATE_START| - 2] == 'e'
  {
    OnlyAppend(NAME, "-state\n", '<', 0, -1);
    OnlyAppend(NAME, "-state\n", '\n', -1, 6);
  }

  lemma EndMarkerShape()
    ensures Marker(STATE_END, 4, 0)
  {
    OnlyAppend("\n--><!-- ", "/django-ray:coverage-debt-state -->", '<', 4, -1);
    OnlyAppend("\n--><!-- ", "/django-ray:coverage-debt-state -->", '\n', 0, -1);
  }

  lemma Differ()
    ensures REPORT_MARKER[|NAME| + 1] == 'l' && STATE_START[|NAME| + 1] == 's'
    ensures STATE_END[9] == '/' && STATE_START[5] == 'd' && REPORT_MARKER[5] == 'd'
  {
    assert STATE_START[5] == NAME[5] && REPORT_MARKER[5] == NAME[5];
  }

  /** The standard wording meets every condition of the round trip. */
  lemma StandardWellFormed()
    ensures WellFormed(Standard())
  {
    ReportMarkerShape();
    StartMarkerShape();
    EndMarkerShape();
    Differ();
    forall s, repository | ValidState(s) && ValidRepository(repository)
      ensures HeadingFits(Standard().heading(s, repository))
    {
      HeadFlat(s, repository);
    }
    forall rows ensures SummaryFits(Standard().summary(rows)) { SummaryShape(rows); }
    forall s | ValidState(s) ensures EncodingFits(Standard().encode(s)) { StateFlat(s); }
  }
}
