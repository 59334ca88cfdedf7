/** scripts/coverage_debt.py: the debt report over all files. */
module CoverageReport {
  import opened Text
  import opened CoverageRanges
  import opened StateJson

  datatype FileSummary = FileSummary(path: string, statements: int, covered: int, missed: int, percent: string, missingLines: seq<int>)

  datatype Totals = Totals(statements: int, covered: int, missed: int)

  datatype DebtFile = DebtFile(path: string, statements: int, covered: int, missed: int, percent: string, ranges: seq<Range>)

  /** The report section of the central configuration: its numbers, or None where the
      value is missing or no number. */
  datatype Config = Unreadable | Config(precision: Option<real>, failUnder: Option<real>)

  predicate ValidConfig(c: Config) { c.Config? && c.precision == Some(2.0) && c.failUnder.Some? }

  /** The precision is two decimals, and there is this threshold. */
  predicate HasThreshold(c: Config, threshold: real) { c == Config(Some(2.0), Some(threshold)) }

  ghost predicate TwoDecimalConfig(c: Config) { exists threshold :: HasThreshold(c, threshold) }

  lemma ConfigMeans(c: Config)
    ensures ValidConfig(c) <==> TwoDecimalConfig(c)
  {
    if ValidConfig(c) { assert HasThreshold(c, c.failUnder.value); }
  }

  datatype Report = Report(sourceCommit: string, config: Config, totals: Totals, percent: string, files: seq<DebtFile>)

  datatype ReportError = InvalidCommit | BranchCoverage | InvalidConfig | InvalidSummary | InvalidPath | Unclassified | InvalidLines | LineCountMismatch | TotalsMismatch

  function NormalizePath(path: string): string {
    if path == "" then "" else [if path[0] == '\\' then '/' else path[0]] + NormalizePath(path[1..])
  }

  /** Only backslashes change, each to a slash. */
  lemma {:induction false} NormalizeMeans(path: string)
    ensures |NormalizePath(path)| == |path|
    ensures forall i | 0 <= i < |path| :: NormalizePath(path)[i] == if path[i] == '\\' then '/' else path[i]
  {
    if path != "" { NormalizeMeans(path[1..]); }
  }

  /** Errors found before any file is looked at. */
  predicate Early(e: ReportError) { e == InvalidCommit || e == BranchCoverage || e == InvalidConfig }

  predicate AddsUp(statements: int, covered: int, missed: int) {
    statements >= 0 && covered >= 0 && missed >= 0 && covered + missed == statements
  }

  predicate ValidSummary(statements: int, covered: int, missed: int, percent: string) {
    TwoDecimals(percent) && AddsUp(statements, covered, missed)
  }

  function Elements(lines: seq<int>): set<int> { set line | line in lines }

  // ----- the sorted set of the missing lines -----

  function InsertLine(sorted: seq<int>, line: int): seq<int> {
    if sorted == [] || sorted[|sorted| - 1] < line then sorted + [line]
    else if sorted[|sorted| - 1] == line then sorted
    else InsertLine(sorted[..|sorted| - 1], line) + [sorted[|sorted| - 1]]
  }

  function SortedSet(lines: seq<int>): seq<int> {
    if lines == [] then [] else InsertLine(SortedSet(lines[..|lines| - 1]), lines[|lines| - 1])
  }

  lemma {:induction false} InsertLineKeeps(sorted: seq<int>, line: int)
    requires Increasing(sorted)
    ensures Increasing(InsertLine(sorted, line))
    ensures forall x :: x in InsertLine(sorted, line) <==> x in sorted || x == line
  {
    if sorted != [] && line < sorted[|sorted| - 1] {
      var init, last := sorted[..|sorted| - 1], sorted[|sorted| - 1];
      assert sorted == init + [last];
      InsertLineKeeps(init, line);
      var more := InsertLine(init, line);
      forall k | 0 <= k < |more| ensures more[k] < last {
        assert more[k] in more;
        if more[k] != line { var j :| 0 <= j < |init| && init[j] == more[k]; assert sorted[j] == more[k]; }
      }
    }
  }

  lemma {:induction false} SortedSetIs(lines: seq<int>)
    ensures Increasing(SortedSet(lines)) && forall x :: x in SortedSet(lines) <==> x in lines
    ensures |SortedSet(lines)| == |Elements(lines)|
  {
    if lines != [] {
      var init, last := lines[..|lines| - 1], lines[|lines| - 1];
      assert lines == init + [last];
      SortedSetIs(init);
      InsertLineKeeps(SortedSet(init), last);
    }
    var a, b := Elements(SortedSet(lines)), Elements(lines);
    assert forall x :: x in a <==> x in b;
    assert a == b;
    IncreasingSize(SortedSet(lines));
  }

  lemma {:induction false} IncreasingSize(lines: seq<int>)
    requires Increasing(lines)
    ensures |Elements(lines)| == |lines|
  {
    if lines != [] {
      var init, last := lines[..|lines| - 1], lines[|lines| - 1];
      assert lines == init + [last];
      LastIsNew(init, last);
      IncreasingSize(init);
    }
  }

  lemma LastIsNew(init: seq<int>, last: int)
    requires Increasing(init + [last])
    ensures Increasing(init) && |Elements(init + [last])| == |Elements(init)| + 1
  {
    forall a, b | 0 <= a < b < |init| ensures init[a] < init[b] { assert (init + [last])[a] < (init + [last])[b]; }
    forall line | line in init ensures line < last {
      var k :| 0 <= k < |init| && init[k] == line;
      assert (init + [last])[k] < (init + [last])[|init|];
    }
    assert last !in Elements(init);
    assert forall line :: line in Elements(init + [last]) <==> line in Elements(init) || line == last;
    assert Elements(init + [last]) == Elements(init) + {last};
  }

  // ----- what the report builder accepts -----

  /** The counts are none negative, add up, and have a two-decimal percentage. */
  ghost predicate SoundSummary(f: FileSummary) {
    && f.statements >= 0 && f.covered >= 0 && f.missed >= 0 && f.covered + f.missed == f.statements
    && TwoDecimals(f.percent)
  }

  ghost predicate FileAccepted(f: FileSummary, classes: map<string, FileClassification>) {
    && SoundSummary(f)
    && (f.missed == 0 ||
        (f.path != "" && NormalizePath(f.path) in classes
         && (forall line | line in f.missingLines :: line > 0) && |Elements(f.missingLines)| == f.missed))
  }

  /** Why a file is refused: the first of the checks that fails. */
  ghost predicate Refuses(f: FileSummary, classes: map<string, FileClassification>, e: ReportError) {
    && !FileAccepted(f, classes)
    && (e == InvalidSummary <==> !SoundSummary(f))
    && (e == InvalidPath <==> SoundSummary(f) && f.path == "")
    && (e == Unclassified <==> SoundSummary(f) && f.path != "" && NormalizePath(f.path) !in classes)
    && (e == InvalidLines <==>
          SoundSummary(f) && f.path != "" && NormalizePath(f.path) in classes && exists line | line in f.missingLines :: line <= 0)
    && (e == LineCountMismatch || e in {InvalidSummary, InvalidPath, Unclassified, InvalidLines})
  }

  /** The first file that is not accepted gives this error. */
  ghost predicate FirstRefusal(files: seq<FileSummary>, classes: map<string, FileClassification>, e: ReportError) {
    exists i | 0 <= i < |files| ::
      Refuses(files[i], classes, e) && forall k | 0 <= k < i :: FileAccepted(files[k], classes)
  }

  function SumOf(files: seq<FileSummary>): Totals {
    if files == [] then Totals(0, 0, 0)
    else
      var sofar, f := SumOf(files[..|files| - 1]), files[|files| - 1];
      Totals(sofar.statements + f.statements, sofar.covered + f.covered, sofar.missed + f.missed)
  }

  ghost predicate AllAccepted(files: seq<FileSummary>, classes: map<string, FileClassification>) {
    forall i | 0 <= i < |files| :: FileAccepted(files[i], classes)
  }

  ghost predicate Accepted(files: seq<FileSummary>, classes: map<string, FileClassification>, totals: Totals) {
    && AllAccepted(files, classes)
    && totals.statements >= 0 && totals.covered >= 0 && totals.missed >= 0
    && totals.covered + totals.missed == totals.statements && SumOf(files) == totals
  }

  function Uncovered(files: seq<FileSummary>): seq<FileSummary> {
    if files == [] then []
    else Uncovered(files[..|files| - 1]) + if files[|files| - 1].missed != 0 then [files[|files| - 1]] else []
  }

  lemma {:induction false} UncoveredAre(files: seq<FileSummary>)
    ensures forall f :: f in Uncovered(files) <==> f in files && f.missed != 0
  {
    if files != [] {
      UncoveredAre(files[..|files| - 1]);
      assert files == files[..|files| - 1] + [files[|files| - 1]];
    }
  }

  /** The entry of one uncovered file: its own totals, and the compression of its
      missing lines under its own classification. */
  ghost predicate DebtOf(d: DebtFile, f: FileSummary, classes: map<string, FileClassification>) {
    && d.path == NormalizePath(f.path) && d.path in classes
    && d.statements == f.statements && d.covered == f.covered && d.missed == f.missed && d.percent == f.percent
    && ValidSummary(d.statements, d.covered, d.missed, d.percent)
    && Compresses(d.ranges, SortedSet(f.missingLines), classes[d.path])
    && Length(d.ranges) == d.missed
  }

  ghost predicate DebtsOf(debts: seq<DebtFile>, files: seq<FileSummary>, classes: map<string, FileClassification>) {
    |debts| == |files| && forall i | 0 <= i < |debts| :: DebtOf(debts[i], files[i], classes)
  }

  function TotalLength(files: seq<DebtFile>): int {
    if files == [] then 0 else TotalLength(files[..|files| - 1]) + Length(files[|files| - 1].ranges)
  }

  // ----- the order of the report -----

  predicate Before(a: DebtFile, b: DebtFile) {
    a.missed > b.missed || (a.missed == b.missed && StringLess(a.path, b.path))
  }

  lemma BeforeOrder(a: DebtFile, b: DebtFile, c: DebtFile)
    ensures Before(a, b) ==> !Before(b, a)
    ensures !Before(a, b) && !Before(b, c) ==> !Before(a, c)
  {
    StringOrder(a.path, b.path, c.path);
  }

  ghost predicate Ordered(files: seq<DebtFile>) {
    forall i, k | 0 <= i < k < |files| :: !Before(files[k], files[i])
  }

  function InsertDebt(sorted: seq<DebtFile>, d: DebtFile): seq<DebtFile> {
    if sorted != [] && Before(d, sorted[|sorted| - 1])
    then InsertDebt(sorted[..|sorted| - 1], d) + [sorted[|sorted| - 1]]
    else sorted + [d]
  }

  function SortDebts(debts: seq<DebtFile>): seq<DebtFile> {
    if debts == [] then [] else InsertDebt(SortDebts(debts[..|debts| - 1]), debts[|debts| - 1])
  }

  lemma {:induction false} InsertDebtHolds(sorted: seq<DebtFile>, d: DebtFile)
    ensures multiset(InsertDebt(sorted, d)) == multiset(sorted) + multiset{d}
    ensures TotalLength(InsertDebt(sorted, d)) == TotalLength(sorted) + Length(d.ranges)
  {
    if sorted != [] && Before(d, sorted[|sorted| - 1]) {
      var init, last := sorted[..|sorted| - 1], sorted[|sorted| - 1];
      assert sorted == init + [last];
      InsertDebtHolds(init, d);
      assert (InsertDebt(init, d) + [last])[..|InsertDebt(init, d)|] == InsertDebt(init, d);
    } else {
      assert (sorted + [d])[..|sorted|] == sorted;
    }
  }

  lemma {:induction false} InsertDebtKeeps(sorted: seq<DebtFile>, d: DebtFile)
    requires Ordered(sorted)
    ensures Ordered(InsertDebt(sorted, d))
  {
    if sorted != [] {
      var init, last := sorted[..|sorted| - 1], sorted[|sorted| - 1];
      if Before(d, last) {
        var more := InsertDebt(init, d);
        InsertDebtKeeps(init, d);
        InsertDebtHolds(init, d);
        forall k | 0 <= k < |more| ensures !Before(last, more[k]) {
          InsertedFrom(init, d, k);
          BeforeOrder(d, last, last);
        }
      } else {
        forall k | 0 <= k < |sorted| ensures !Before(d, sorted[k]) {
          BeforeOrder(d, last, sorted[k]);
          BeforeOrder(sorted[k], sorted[k], sorted[k]);
        }
      }
    }
  }

  lemma {:induction false} InsertedFrom(sorted: seq<DebtFile>, d: DebtFile, k: nat)
    requires k < |InsertDebt(sorted, d)|
    ensures InsertDebt(sorted, d)[k] == d || exists j | 0 <= j < |sorted| :: sorted[j] == InsertDebt(sorted, d)[k]
  {
    if sorted != [] && Before(d, sorted[|sorted| - 1]) && k < |InsertDebt(sorted[..|sorted| - 1], d)| {
      InsertedFrom(sorted[..|sorted| - 1], d, k);
    }
  }

  lemma {:induction false} SortDebtsKeeps(debts: seq<DebtFile>)
    ensures Ordered(SortDebts(debts)) && multiset(SortDebts(debts)) == multiset(debts)
    ensures TotalLength(SortDebts(debts)) == TotalLength(debts)
  {
    if debts != [] {
      var init, last := debts[..|debts| - 1], debts[|debts| - 1];
      assert debts == init + [last];
      SortDebtsKeeps(init);
      InsertDebtKeeps(SortDebts(init), last);
      InsertDebtHolds(SortDebts(init), last);
    }
  }

  // ----- building the report -----

  method DebtEntry(f: FileSummary, classes: map<string, FileClassification>) returns (r: Result<DebtFile, ReportError>)
    requires ValidSummary(f.statements, f.covered, f.missed, f.percent) && f.missed != 0
    ensures r.Success? <==> FileAccepted(f, classes)
    ensures r.Success? ==> DebtOf(r.value, f, classes)
    ensures r.Failure? ==> Refuses(f, classes, r.error)
  {
    if f.path == "" { return Failure(InvalidPath); }
    var path := NormalizePath(f.path);
    if path !in classes { return Failure(Unclassified); }
    if exists line | line in f.missingLines :: line <= 0 { return Failure(InvalidLines); }
    SortedSetIs(f.missingLines);
    var lines := SortedSet(f.missingLines);
    if |lines| != f.missed { return Failure(LineCountMismatch); }
    var ranges := UncoveredRanges(lines, classes[path]);
    LengthCountsLines(ranges);
    r := Success(DebtFile(path, f.statements, f.covered, f.missed, f.percent, ranges));
  }

  /** The first `i` files are accepted, summed up and entered. */
  ghost predicate Entered(files: seq<FileSummary>, i: nat, classes: map<string, FileClassification>,
                          aggregate: Totals, entries: seq<DebtFile>)
    requires i <= |files|
  {
    && (forall k | 0 <= k < i :: FileAccepted(files[k], classes))
    && aggregate == SumOf(files[..i])
    && DebtsOf(entries, Uncovered(files[..i]), classes) && TotalLength(entries) == aggregate.missed
  }

  function Add(t: Totals, f: FileSummary): Totals {
    Totals(t.statements + f.statements, t.covered + f.covered, t.missed + f.missed)
  }

  lemma EnteredSkip(files: seq<FileSummary>, i: nat, classes: map<string, FileClassification>,
                    aggregate: Totals, entries: seq<DebtFile>)
    requires i < |files| && Entered(files, i, classes, aggregate, entries)
    requires FileAccepted(files[i], classes) && files[i].missed == 0
    ensures Entered(files, i + 1, classes, Add(aggregate, files[i]), entries)
  {
    assert files[..i + 1][..i] == files[..i];
  }

  lemma EnteredMore(files: seq<FileSummary>, i: nat, classes: map<string, FileClassification>,
                    aggregate: Totals, entries: seq<DebtFile>, d: DebtFile)
    requires i < |files| && Entered(files, i, classes, aggregate, entries)
    requires FileAccepted(files[i], classes) && files[i].missed != 0 && DebtOf(d, files[i], classes)
    ensures Entered(files, i + 1, classes, Add(aggregate, files[i]), entries + [d])
  {
    assert files[..i + 1][..i] == files[..i];
    assert (entries + [d])[..|entries|] == entries;
  }

  ghost predicate EntryIsSound(d: DebtFile) {
    d.covered >= 0 && d.missed > 0 && d.covered + d.missed == d.statements && TwoDecimals(d.percent)
  }

  /** More missed lines first; among equals, the path that comes first. */
  ghost predicate MostMissedFirst(files: seq<DebtFile>) {
    forall i, k | 0 <= i < k < |files| ::
      && files[i].missed >= files[k].missed
      && (files[i].missed == files[k].missed ==> !ComesBefore(files[k].path, files[i].path))
  }

  lemma OrderedMeans(files: seq<DebtFile>)
    ensures Ordered(files) <==> MostMissedFirst(files)
  {
    forall i, k | 0 <= i < k < |files|
      ensures !Before(files[k], files[i]) <==>
                && files[i].missed >= files[k].missed
                && (files[i].missed == files[k].missed ==> !ComesBefore(files[k].path, files[i].path))
    {
      StringLessMeans(files[k].path, files[i].path);
    }
  }

  /** Every entry of a report has numbers that add up and a two-decimal percentage. */
  lemma EntriesAreValid(debts: seq<DebtFile>, files: seq<FileSummary>, classes: map<string, FileClassification>, sorted: seq<DebtFile>)
    requires DebtsOf(debts, files, classes) && multiset(sorted) == multiset(debts)
    requires forall f | f in files :: f.missed != 0
    ensures forall d | d in sorted :: EntryIsSound(d)
  {
    forall d | d in sorted ensures EntryIsSound(d) {
      assert d in multiset(sorted) && d in multiset(debts);
      var k :| 0 <= k < |debts| && debts[k] == d;
      assert DebtOf(debts[k], files[k], classes) && files[k] in files;
    }
  }

  /** The files of a report: the entries, sound and in order. */
  ghost predicate Lists(files: seq<DebtFile>, debts: seq<DebtFile>) {
    MostMissedFirst(files) && multiset(files) == multiset(debts) && forall d | d in files :: EntryIsSound(d)
  }

  /** What sorting makes of the entries. */
  lemma SortedHold(debts: seq<DebtFile>, files: seq<FileSummary>, classes: map<string, FileClassification>)
    requires DebtsOf(debts, Uncovered(files), classes)
    ensures Lists(SortDebts(debts), debts) && TotalLength(SortDebts(debts)) == TotalLength(debts)
  {
    SortDebtsKeeps(debts);
    UncoveredAre(files);
    EntriesAreValid(debts, Uncovered(files), classes, SortDebts(debts));
    OrderedMeans(SortDebts(debts));
  }

  /** What a report holds besides its source: every entry, sorted, and the totals. No missed
      line is lost or counted twice: the ranges together are as long as the missed-line
      total. */
  ghost predicate Holds(report: Report, config: Config, files: seq<FileSummary>, classes: map<string, FileClassification>,
                        totals: Totals, percent: string, debts: seq<DebtFile>) {
    && report.config == config && report.totals == totals && report.percent == percent
    && DebtsOf(debts, Uncovered(files), classes) && Lists(report.files, debts) && TotalLength(report.files) == totals.missed
  }

  lemma SortedReport(sourceCommit: string, config: Config, files: seq<FileSummary>, classes: map<string, FileClassification>,
                     totals: Totals, percent: string, debts: seq<DebtFile>)
    requires DebtsOf(debts, Uncovered(files), classes) && TotalLength(debts) == totals.missed
    ensures Holds(Report(sourceCommit, config, totals, percent, SortDebts(debts)), config, files, classes, totals, percent, debts)
  {
    SortedHold(debts, files, classes);
  }

  /** Builds the report exactly for acceptable input. */
  method BuildReport(sourceCommit: string, branchCoverage: bool, config: Config, files: seq<FileSummary>,
                     classes: map<string, FileClassification>, totals: Totals, percent: string)
    returns (r: Result<Report, ReportError>, ghost debts: seq<DebtFile>)
    ensures r.Success? <==>
              && CommitName(sourceCommit) && !branchCoverage && TwoDecimalConfig(config)
              && Accepted(files, classes, totals) && TwoDecimals(percent)
    ensures r == Failure(InvalidCommit) <==> !CommitName(sourceCommit)
    ensures r == Failure(BranchCoverage) <==> CommitName(sourceCommit) && branchCoverage
    ensures r == Failure(InvalidConfig) <==> CommitName(sourceCommit) && !branchCoverage && !TwoDecimalConfig(config)
    ensures r.Success? ==> r.value.sourceCommit == sourceCommit && Holds(r.value, config, files, classes, totals, percent, debts)
    ensures r.Failure? && !Early(r.error) && r.error != TotalsMismatch ==> FirstRefusal(files, classes, r.error)
    ensures r == Failure(TotalsMismatch) ==> AllAccepted(files, classes)
  {
    debts := [];
    ConfigMeans(config);
    if !CommitName(sourceCommit) { return Failure(InvalidCommit), debts; }
    if branchCoverage { return Failure(BranchCoverage), debts; }
    if !ValidConfig(config) { return Failure(InvalidConfig), debts; }
    r, debts := BuildFiles(sourceCommit, config, files, classes, totals, percent);
  }

  /** The part behind the checks of the sources. */
  method BuildFiles(sourceCommit: string, config: Config, files: seq<FileSummary>, classes: map<string, FileClassification>,
                    totals: Totals, percent: string)
    returns (r: Result<Report, ReportError>, ghost debts: seq<DebtFile>)
    ensures r.Success? <==> Accepted(files, classes, totals) && TwoDecimals(percent)
    ensures r.Success? ==> r.value.sourceCommit == sourceCommit && Holds(r.value, config, files, classes, totals, percent, debts)
    ensures r.Failure? ==> !Early(r.error)
    ensures r.Failure? && r.error != TotalsMismatch ==> FirstRefusal(files, classes, r.error)
    ensures r == Failure(TotalsMismatch) ==> AllAccepted(files, classes)
  {
    debts := [];
    var entries := AddFiles(files, classes);
    if entries.Failure? { return Failure(entries.error), debts; }
    var unsorted := entries.value.0;
    debts := unsorted;
    if !ValidSummary(totals.statements, totals.covered, totals.missed, percent) || entries.value.1 != totals {
      return Failure(TotalsMismatch), debts;
    }
    SortedReport(sourceCommit, config, files, classes, totals, percent, unsorted);
    r := Success(Report(sourceCommit, config, totals, percent, SortDebts(unsorted)));
  }

  /** The loop over the files: the entries of the uncovered ones, and the sums. */
  method AddFiles(files: seq<FileSummary>, classes: map<string, FileClassification>)
    returns (r: Result<(seq<DebtFile>, Totals), ReportError>)
    ensures r.Failure? ==> !AllAccepted(files, classes) && !Early(r.error) && FirstRefusal(files, classes, r.error)
    ensures r.Success? ==>
              && AllAccepted(files, classes) && r.value.1 == SumOf(files)
              && DebtsOf(r.value.0, Uncovered(files), classes) && TotalLength(r.value.0) == SumOf(files).missed
  {
    var entries: seq<DebtFile> := [];
    var aggregate := Totals(0, 0, 0);
    for i := 0 to |files|
      invariant Entered(files, i, classes, aggregate, entries)
    {
      var f := files[i];
      if !ValidSummary(f.statements, f.covered, f.missed, f.percent) { return Failure(InvalidSummary); }
      if f.missed == 0 {
        EnteredSkip(files, i, classes, aggregate, entries);
      } else {
        var entry := DebtEntry(f, classes);
        if entry.Failure? { return Failure(entry.error); }
        EnteredMore(files, i, classes, aggregate, entries, entry.value);
        entries := entries + [entry.value];
      }
      aggregate := Add(aggregate, f);
    }
    assert files[..|files|] == files;
    r := Success((entries, aggregate));
  }
}
