/** scripts/coverage_debt.py: the tracker comment of a built report. */
module TrackerReport {
  import opened Text
  import opened Markers
  import opened StateJson
  import opened CoverageRanges
  import opened CoverageReport
  import opened TrackerRows
  import opened TrackerCells
  import Tracker
  import TrackerLayout

  function Display(r: Range): string {
    if r.start == r.end then Number(r.start) else Number(r.start) + ("-" + Number(r.end))
  }

  function LabelledRanges(ranges: seq<Range>): seq<LabelledRange> {
    if ranges == [] then []
    else
      var last := ranges[|ranges| - 1];
      LabelledRanges(ranges[..|ranges| - 1]) + [LabelledRange(last.classification.title, Display(last))]
  }

  /** The row of a file as the report holds it. */
  function RowOf(d: DebtFile): FileRow {
    FileRow(d.path, Number(d.statements), Number(d.covered), Number(d.missed), d.percent, LabelledRanges(d.ranges))
  }

  function RowsOf(files: seq<DebtFile>): seq<FileRow> {
    if files == [] then [] else RowsOf(files[..|files| - 1]) + [RowOf(files[|files| - 1])]
  }

  lemma {:induction false} RowsAre(files: seq<DebtFile>)
    ensures forall r :: r in RowsOf(files) <==> exists d | d in files :: r == RowOf(d)
  {
    if files != [] {
      var init, last := files[..|files| - 1], files[|files| - 1];
      RowsAre(init);
      assert files == init + [last];
    }
  }

  lemma NumberFlat(n: int)
    ensures Flat(Number(n))
  {
    if n < 0 { DecimalValue(-n); } else { DecimalValue(n); }
  }

  lemma DisplayFlat(r: Range)
    ensures Flat(Display(r))
  {
    NumberFlat(r.start);
    NumberFlat(r.end);
    FlatAppend("-", Number(r.end));
    FlatAppend(Number(r.start), "-" + Number(r.end));
  }

  lemma LabelsFlat()
    ensures forall i | 0 <= i < |CATEGORY_LABELS| :: Flat(CATEGORY_LABELS[i].1)
  {
    assert Flat(CATEGORY_LABELS[0].1) && Flat(CATEGORY_LABELS[1].1) && Flat(CATEGORY_LABELS[2].1);
    assert Flat(CATEGORY_LABELS[3].1) && Flat(CATEGORY_LABELS[4].1);
  }

  lemma LabelFlat(c: Classification)
    requires Labelled(c)
    ensures Flat(c.title)
  {
    LabelsFlat();
  }

  lemma {:induction false} ForLineLabelled(f: FileClassification, line: int)
    requires FileLabelled(f)
    ensures Labelled(f.ForLine(line))
    decreases |f.overrides|
  {
    if f.overrides != [] { ForLineLabelled(FileClassification(f.fallback, f.overrides[1..]), line); }
  }

  lemma {:induction false} LabelledRangesFlat(ranges: seq<Range>)
    requires forall r | r in ranges :: Labelled(r.classification)
    ensures FlatRanges(LabelledRanges(ranges))
  {
    if ranges != [] {
      var last := ranges[|ranges| - 1];
      assert last in ranges;
      LabelledRangesFlat(ranges[..|ranges| - 1]);
      LabelFlat(last.classification);
      DisplayFlat(last);
    }
  }

  /** The ranges of an entry are classified by the file's own classification. */
  lemma EntryLabelled(ranges: seq<Range>, lines: seq<int>, f: FileClassification)
    requires Compresses(ranges, lines, f) && FileLabelled(f)
    ensures FlatRanges(LabelledRanges(ranges))
  {
    forall r | r in ranges ensures Labelled(r.classification) {
      ForLineLabelled(f, r.start);
      assert f.ForLine(r.start) == r.classification;
    }
    LabelledRangesFlat(ranges);
  }

  lemma NumbersBuilt(d: DebtFile)
    requires ValidSummary(d.statements, d.covered, d.missed, d.percent)
    ensures OneLine(RowOf(d)) && FlatNumbers(RowOf(d))
  {
    DecimalValue(d.statements);
    DecimalValue(d.covered);
    DecimalValue(d.missed);
  }

  /** The row of a file that the report lists: one line, and a marker can only be in its
      path. */
  lemma BuiltRow(d: DebtFile, f: FileSummary, classes: map<string, FileClassification>, word: string)
    requires DebtOf(d, f, classes) && FileLabelled(classes[d.path]) && CellMarker(word)
    ensures OneLine(RowOf(d)) && FlatNumbers(RowOf(d))
    ensures CellsHold(RowOf(d), word) <==> Contains(MarkdownCell(d.path), word)
  {
    NumbersBuilt(d);
    EntryLabelled(d.ranges, SortedSet(f.missingLines), classes[d.path]);
    FlatRangesHoldNone(LabelledRanges(d.ranges), word);
  }

  lemma EntryOf(files: seq<DebtFile>, debts: seq<DebtFile>, d: DebtFile) returns (k: nat)
    requires d in files && multiset(files) == multiset(debts)
    ensures k < |debts| && debts[k] == d
  {
    assert d in multiset(files) && d in multiset(debts);
    k :| 0 <= k < |debts| && debts[k] == d;
  }

  /** For the files of a built report, as BuildReport returns them: the comment cannot
      jam the tracker if and only if no path shows the report marker. */
  lemma BuiltHarmless(files: seq<DebtFile>, debts: seq<DebtFile>, summaries: seq<FileSummary>, classes: map<string, FileClassification>)
    requires DebtsOf(debts, Uncovered(summaries), classes) && multiset(files) == multiset(debts)
    requires forall path | path in classes :: FileLabelled(classes[path])
    ensures Tracker.Harmless(TrackerLayout.Standard(), RowsOf(files)) <==>
              forall d | d in files :: !Contains(MarkdownCell(d.path), TrackerLayout.REPORT_MARKER)
  {
    var marker := TrackerLayout.REPORT_MARKER;
    ReportMarkerIsCell();
    RowsAre(files);
    forall d | d in files
      ensures RowOf(d) in RowsOf(files) && OneLine(RowOf(d)) && FlatNumbers(RowOf(d))
      ensures CellsHold(RowOf(d), marker) <==> Contains(MarkdownCell(d.path), marker)
    {
      var k := EntryOf(files, debts, d);
      BuiltRow(d, Uncovered(summaries)[k], classes, marker);
    }
    Tracker.ProgramHarmless(RowsOf(files));
  }

  // ----- a built report that jams the tracker -----

  const FOLDER := "src/django_ray/"

  /** A canonical path that shows the report marker. */
  function MarkedPath(): string { FOLDER + TrackerLayout.REPORT_MARKER }

  const PATH_WORDS := [FOLDER + "<!--", "django-ray:coverage-debt" + "-latest-report", "-->"]

  lemma JoinThree(a: string, b: string, c: string)
    ensures JoinWith(" ", [a, b, c]) == a + " " + b + " " + c
  {
    assert [a, b, c][..2] == [a, b] && [a, b][..1] == [a];
    assert JoinWith(" ", [a, b]) == a + " " + b;
  }

  lemma Regroup(f: string, a: string, b: string, c: string, d: string)
    ensures (f + a) + " " + (b + c) + " " + d == f + ((a + " " + b) + (c + " " + d))
  {
  }

  lemma PathWordsAreWords()
    ensures forall w | w in PATH_WORDS :: IsWord(w)
  {
    assert IsWord(PATH_WORDS[0]) && IsWord(PATH_WORDS[1]) && IsWord(PATH_WORDS[2]);
  }

  lemma NameParts()
    ensures TrackerLayout.NAME == "<!--" + " " + "django-ray:coverage-debt"
  {
  }

  lemma PathWords()
    ensures JoinWith(" ", PATH_WORDS) == MarkedPath()
  {
    var name, report := "django-ray:coverage-debt", "-latest-report";
    NameParts();
    assert "-latest-report -->" == report + " " + "-->";
    JoinThree(FOLDER + "<!--", name + report, "-->");
    Regroup(FOLDER, "<!--", name, report, "-->");
  }

  lemma PathLacks(c: char)
    requires c == '|' || c == '\\'
    ensures Lacks(MarkedPath(), c)
  {
    assert Lacks(FOLDER, c) && Lacks(TrackerLayout.NAME, c) && Lacks("-latest-report -->", c);
    LacksAppend(TrackerLayout.NAME, "-latest-report -->", c);
    LacksAppend(FOLDER, TrackerLayout.REPORT_MARKER, c);
  }

  lemma {:induction false} NormalizeKeeps(path: string)
    requires Lacks(path, '\\')
    ensures NormalizePath(path) == path
  {
    if path != "" { NormalizeKeeps(path[1..]); }
  }

  lemma MarkedPathShows()
    ensures Contains(MarkdownCell(MarkedPath()), TrackerLayout.REPORT_MARKER)
  {
    PathWords();
    PathWordsAreWords();
    PathLacks('|');
    CellFixed(PATH_WORDS);
    var text, marker := MarkedPath(), TrackerLayout.REPORT_MARKER;
    assert text[|FOLDER|..|FOLDER| + |marker|] == marker;
    assert OccursAt(text, |FOLDER|, marker);
  }

  function OneFile(path: string): FileSummary { FileSummary(path, 1, 0, 1, "0.00", [1]) }

  function Classes(path: string, c: Classification): map<string, FileClassification> {
    map[path := FileClassification(c, [])]
  }

  lemma OneFileAccepted(path: string, c: Classification)
    requires path != "" && Lacks(path, '\\')
    ensures Accepted([OneFile(path)], Classes(path, c), CoverageReport.Totals(1, 0, 1))
    ensures Uncovered([OneFile(path)]) == [OneFile(path)]
  {
    var f := OneFile(path);
    NormalizeKeeps(path);
    assert Elements([1]) == {1};
    assert [f][..0] == [] && SumOf([]) == CoverageReport.Totals(0, 0, 0);
    assert FileAccepted(f, Classes(path, c));
  }

  /** The classified file with one uncovered line is accepted, and every report built for
      it jams the tracker. */
  ghost predicate Jamming(path: string, c: Classification) {
    && Accepted([OneFile(path)], Classes(path, c), CoverageReport.Totals(1, 0, 1))
    && forall files, debts | DebtsOf(debts, Uncovered([OneFile(path)]), Classes(path, c)) && multiset(files) == multiset(debts) ::
         !Tracker.Harmless(TrackerLayout.Standard(), RowsOf(files))
  }

  lemma PathJams(path: string, c: Classification)
    requires path != "" && Lacks(path, '\\') && Contains(MarkdownCell(path), TrackerLayout.REPORT_MARKER) && Labelled(c)
    ensures Jamming(path, c)
  {
    OneFileAccepted(path, c);
    forall files, debts | DebtsOf(debts, Uncovered([OneFile(path)]), Classes(path, c)) && multiset(files) == multiset(debts)
      ensures !Tracker.Harmless(TrackerLayout.Standard(), RowsOf(files))
    {
      assert DebtOf(debts[0], OneFile(path), Classes(path, c));
      NormalizeKeeps(path);
      assert debts[0] in multiset(debts) && debts[0] in multiset(files);
      BuiltHarmless(files, debts, [OneFile(path)], Classes(path, c));
    }
  }

  /** A canonical path that is the report marker behind the folder's name does so. */
  lemma MarkedPathJams(c: Classification)
    requires Labelled(c)
    ensures Jamming(MarkedPath(), c)
  {
    PathLacks('\\');
    MarkedPathShows();
    PathJams(MarkedPath(), c);
  }
}
