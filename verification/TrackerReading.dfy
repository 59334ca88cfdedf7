/** scripts/coverage_debt.py: what a reader finds in the tables of the tracker
    comment. */
module TrackerReading {
  import opened Text
  import opened StateJson
  import opened CoverageRanges
  import opened CoverageReport
  import opened TrackerHistory
  import opened TrackerRows
  import opened TrackerCells
  import opened TrackerLayout
  import opened TrackerReport

  /** The characters that stay together at the start: an escaped bar, or one. */
  function FrontLength(cell: string): nat
    requires cell != ""
  {
    if |cell| > 1 && cell[0] == '\\' && cell[1] == '|' then 2 else 1
  }

  /** The columns of a line: its text, cut at the bars that no backslash escapes. */
  function Columns(line: string): (columns: seq<string>)
    ensures columns != []
  {
    if line == "" then [""]
    else if line[0] == '|' then [""] + Columns(line[1..])
    else
      var n := FrontLength(line);
      var more := Columns(line[n..]);
      [line[..n] + more[0]] + more[1..]
  }

  /** Every bar is escaped. */
  predicate Sealed(s: string) { forall i | 0 <= i < |s| && s[i] == '|' :: i > 0 && s[i - 1] == '\\' }

  lemma {:induction false} ColumnsCell(cell: string, more: string)
    requires Sealed(cell) && (cell == "" || Last(cell) != '\\')
    ensures Columns(cell + ("|" + more)) == [cell] + Columns(more)
    decreases |cell|
  {
    if cell == "" {
      assert (cell + ("|" + more))[1..] == more;
    } else {
      var n := FrontLength(cell);
      assert (cell + ("|" + more))[n..] == cell[n..] + ("|" + more);
      ColumnsCell(cell[n..], more);
      ColumnsFront(cell, more, n);
    }
  }

  lemma ColumnsFront(cell: string, more: string, n: nat)
    requires cell != "" && cell[0] != '|' && n == FrontLength(cell) && Last(cell) != '\\'
    requires (cell + ("|" + more))[n..] == cell[n..] + ("|" + more) && Columns(cell[n..] + ("|" + more)) == [cell[n..]] + Columns(more)
    ensures Columns(cell + ("|" + more)) == [cell] + Columns(more)
  {
    var line := cell + ("|" + more);
    assert line[..n] == cell[..n] && cell[..n] + cell[n..] == cell;
    assert line[0] == cell[0] && (|cell| > 1 ==> line[1] == cell[1]);
    var rest := Columns(line[n..]);
    assert rest[0] == cell[n..] && rest[1..] == Columns(more);
  }

  /** The cells of a line, each between blanks and closed by a bar. */
  function Cells(cells: seq<string>): string {
    if cells == [] then "" else Padded(cells[0]) + ("|" + Cells(cells[1..]))
  }

  function Padded(cell: string): string { " " + cell + " " }

  function AllPadded(cells: seq<string>): seq<string> {
    if cells == [] then [] else [Padded(cells[0])] + AllPadded(cells[1..])
  }

  lemma {:induction false} CellsRead(cells: seq<string>)
    requires forall cell | cell in cells :: Sealed(cell)
    ensures Columns(Cells(cells)) == AllPadded(cells) + [""]
  {
    if cells != [] {
      assert Sealed(cells[0]);
      ColumnsCell(Padded(cells[0]), Cells(cells[1..]));
      CellsRead(cells[1..]);
    }
  }

  lemma BarredRead(cells: seq<string>)
    requires forall cell | cell in cells :: Sealed(cell)
    ensures Columns("|" + Cells(cells)) == [""] + AllPadded(cells) + [""]
  {
    CellsRead(cells);
    assert ("|" + Cells(cells))[1..] == Cells(cells);
  }

  lemma SealedAppend(a: string, b: string)
    requires Sealed(a) && Sealed(b)
    ensures Sealed(a + b)
  {
  }

  lemma LacksIsSealed(s: string)
    requires Lacks(s, '|')
    ensures Sealed(s)
  {
  }

  // ----- one cell -----

  lemma {:induction false} EscapedReads(s: string)
    ensures Sealed(Replace(s, "|", "\\|")) && Replace(Replace(s, "|", "\\|"), "\\|", "|") == s
    ensures s != "" && s[0] != '|' ==> Replace(s, "|", "\\|") != "" && Replace(s, "|", "\\|")[0] == s[0]
    ensures s != "" && s[0] == '|' ==> Replace(s, "|", "\\|") != "" && Replace(s, "|", "\\|")[0] == '\\'
    ensures s == "" ==> Replace(s, "|", "\\|") == ""
  {
    if s != "" {
      var rest := Replace(s[1..], "|", "\\|");
      EscapedReads(s[1..]);
      if s[0] == '|' {
        assert OccursAt(s, 0, "|");
        assert ("\\|" + rest)[..2] == "\\|" && ("\\|" + rest)[2..] == rest;
        assert OccursAt("\\|" + rest, 0, "\\|");
        assert s == "|" + s[1..];
      } else {
        assert s[..1][0] == s[0];
        var text := [s[0]] + rest;
        if |text| > 1 { assert text[..2][1] == text[1]; }
        assert text[1..] == rest;
        assert s == [s[0]] + s[1..];
      }
    }
  }

  /** Every bar in a cell is escaped, and without the escapes the cell is the text with
      its white space collapsed. */
  lemma CellReads(s: string)
    ensures Sealed(MarkdownCell(s)) && Replace(MarkdownCell(s), "\\|", "|") == Collapsed(s)
  {
    EscapedReads(Collapsed(s));
  }

  /** A blank ends a word, any other character prolongs it or starts one. */
  lemma WordsMean(s: string, c: char)
    ensures Words("") == [] && Words([c]) == if Space(c) then [] else [[c]]
    ensures s != "" && Space(c) ==> Words(s + [c]) == Words(s)
    ensures s != "" && !Space(c) && Space(Last(s)) ==> Words(s + [c]) == Words(s) + [[c]]
    ensures s != "" && !Space(c) && !Space(Last(s)) ==>
              Words(s) != [] && Words(s + [c]) == Words(s)[..|Words(s)| - 1] + [Words(s)[|Words(s)| - 1] + [c]]
  {
    assert (s + [c])[..|s|] == s && [c][..0] == "";
  }

  lemma {:induction false} JoinWithMeans(separator: string, front: seq<string>, back: seq<string>)
    requires front != [] && back != []
    ensures JoinWith(separator, front + back) == JoinWith(separator, front) + separator + JoinWith(separator, back)
  {
    var init, last := back[..|back| - 1], back[|back| - 1];
    assert (front + back)[..|front + back| - 1] == front + init;
    if init == [] {
      assert front + init == front;
    } else {
      JoinWithMeans(separator, front, init);
    }
  }

  // ----- the ranges of a file -----

  ghost predicate HasHeading(ranges: seq<LabelledRange>, title: string) {
    exists r | r in ranges :: r.heading == title
  }

  /** A range has the label `a`, and neither it nor one before it has the label `b`. */
  ghost predicate ShowsFirst(ranges: seq<LabelledRange>, a: string, b: string) {
    exists k | 0 <= k < |ranges| :: ranges[k].heading == a && !HasHeading(ranges[..k + 1], b)
  }

  /** Each label of the ranges stands once, in the order in which they show up. */
  lemma {:induction false} LabelsMean(ranges: seq<LabelledRange>)
    ensures forall title :: title in Labels(ranges) <==> HasHeading(ranges, title)
    ensures forall i, j | 0 <= i < j < |Labels(ranges)| :: ShowsFirst(ranges, Labels(ranges)[i], Labels(ranges)[j])
    ensures forall i, j | 0 <= i < j < |Labels(ranges)| :: Labels(ranges)[i] != Labels(ranges)[j]
  {
    if ranges != [] {
      var init, last := ranges[..|ranges| - 1], ranges[|ranges| - 1];
      assert ranges == init + [last];
      LabelsMean(init);
      forall title ensures title in Labels(ranges) <==> HasHeading(ranges, title) {
        if HasHeading(ranges, title) && title != last.heading { assert HasHeading(init, title); }
        if HasHeading(init, title) { assert HasHeading(ranges, title); }
      }
      forall i, j | 0 <= i < j < |Labels(ranges)| ensures ShowsFirst(ranges, Labels(ranges)[i], Labels(ranges)[j]) {
        if j < |Labels(init)| {
          ShowsLater(init, last, Labels(init)[i], Labels(init)[j]);
        } else {
          assert Labels(ranges)[i] == Labels(init)[i] && Labels(init)[i] in Labels(init);
          NewShows(init, last, Labels(init)[i]);
        }
      }
    }
  }

  lemma ShowsLater(ranges: seq<LabelledRange>, r: LabelledRange, a: string, b: string)
    requires ShowsFirst(ranges, a, b)
    ensures ShowsFirst(ranges + [r], a, b)
  {
    var k :| 0 <= k < |ranges| && ranges[k].heading == a && !HasHeading(ranges[..k + 1], b);
    assert (ranges + [r])[..k + 1] == ranges[..k + 1] && (ranges + [r])[k].heading == a;
  }

  lemma NewShows(ranges: seq<LabelledRange>, r: LabelledRange, a: string)
    requires HasHeading(ranges, a) && !HasHeading(ranges, r.heading)
    ensures ShowsFirst(ranges + [r], a, r.heading)
  {
    var k :| 0 <= k < |ranges| && ranges[k].heading == a;
    assert (ranges + [r])[..k + 1] == ranges[..k + 1] && (ranges + [r])[k].heading == a;
    forall s | s in ranges[..k + 1] ensures s in ranges {}
  }

  /** The ranges with a label, in their order. */
  lemma {:induction false} DisplaysMean(a: seq<LabelledRange>, b: seq<LabelledRange>, heading: string)
    ensures Displays(a + b, heading) == Displays(a, heading) + Displays(b, heading)
    ensures |b| == 1 ==> Displays(b, heading) == if b[0].heading == heading then [b[0].display] else []
    ensures b == [] ==> Displays(b, heading) == []
    decreases |b|
  {
    if b == [] {
      assert a + b == a;
    } else {
      var init, last := b[..|b| - 1], b[|b| - 1];
      assert (a + b)[..|a + b| - 1] == a + init;
      DisplaysMean(a, init, heading);
    }
  }

  /** A label with its ranges. */
  function GroupOf(ranges: seq<LabelledRange>, title: string): string {
    title + ": " + JoinWith(", ", Displays(ranges, title))
  }

  lemma {:induction false} GroupsMean(ranges: seq<LabelledRange>, labels: seq<string>)
    ensures |Groups(ranges, labels)| == |labels|
    ensures forall i | 0 <= i < |labels| :: Groups(ranges, labels)[i] == GroupOf(ranges, labels[i])
  {
    if labels != [] {
      GroupsMean(ranges, labels[..|labels| - 1]);
      LastGroup(ranges, labels);
    }
  }

  lemma LastGroup(ranges: seq<LabelledRange>, labels: seq<string>)
    requires labels != []
    ensures var last := labels[|labels| - 1];
            Groups(ranges, labels) ==
              Groups(ranges, labels[..|labels| - 1]) + [GroupOf(ranges, last)]
  {
  }

  lemma {:induction false} LabelledRangesMean(ranges: seq<Range>)
    ensures |LabelledRanges(ranges)| == |ranges|
    ensures forall i | 0 <= i < |ranges| ::
              LabelledRanges(ranges)[i] == LabelledRange(ranges[i].classification.title, Display(ranges[i]))
  {
    if ranges != [] { LabelledRangesMean(ranges[..|ranges| - 1]); }
  }

  /** A range of one line is shown as its number, any other as first and last line. */
  lemma DisplayReads(r: Range)
    requires 0 <= r.start <= r.end
    ensures var parts := SplitAt(Display(r), '-');
            && |parts| == (if r.start == r.end then 1 else 2)
            && (forall part | part in parts :: Digits(part))
            && Numeral(parts[0]) == r.start && Numeral(parts[|parts| - 1]) == r.end
  {
    DecimalPrints(r.start);
    DecimalPrints(r.end);
    SplitNone(Decimal(r.start), '-');
    SplitNone(Decimal(r.end), '-');
    SplitConcat(Decimal(r.start), '-', Decimal(r.end));
  }

  // ----- the rows -----

  function RowCells(r: FileRow): seq<string> {
    ["`" + MarkdownCell(r.path) + "`", r.statements, r.covered, r.missed, r.percent + "%", MarkdownCell(CompactRanges(r.ranges))]
  }

  lemma NextCell(cell: string, more: seq<string>, text: string)
    requires Cells(more) == " " + text
    ensures Cells([cell] + more) == " " + (cell + (" | " + text))
  {
    assert ([cell] + more)[1..] == more;
    assert " |" + (" " + text) == " | " + text;
  }

  lemma LastCell(cell: string)
    ensures Cells([cell]) == " " + (cell + " |")
  {
    assert [cell][1..] == [] && Cells([]) == "";
  }

  /** Six cells, written from the back. */
  lemma SixCells(a: string, b: string, c: string, d: string, e: string, f: string)
    ensures "|" + Cells([a, b, c, d, e, f]) ==
              "| " + (a + (" | " + (b + (" | " + (c + (" | " + (d + (" | " + (e + (" | " + (f + " |")))))))))))
  {
    LastCell(f);
    NextCell(e, [f], f + " |");
    NextCell(d, [e, f], e + (" | " + (f + " |")));
    assert [e] + [f] == [e, f] && [d] + [e, f] == [d, e, f] && [c] + [d, e, f] == [c, d, e, f];
    NextCell(c, [d, e, f], d + (" | " + (e + (" | " + (f + " |")))));
    NextCell(b, [c, d, e, f], c + (" | " + (d + (" | " + (e + (" | " + (f + " |")))))));
    assert [b] + [c, d, e, f] == [b, c, d, e, f] && [a] + [b, c, d, e, f] == [a, b, c, d, e, f];
    NextCell(a, [b, c, d, e, f], b + (" | " + (c + (" | " + (d + (" | " + (e + (" | " + (f + " |")))))))));
  }

  lemma RowIsBarred(r: FileRow)
    ensures RowText(r) == "|" + Cells(RowCells(r))
  {
    var path, ranges := MarkdownCell(r.path), MarkdownCell(CompactRanges(r.ranges));
    SixCells("`" + path + "`", r.statements, r.covered, r.missed, r.percent + "%", ranges);
    NumbersInFront(r.statements, r.covered, r.missed, r.percent, ranges + " |");
    PathInFront(path, Numbers(r) + (ranges + " |"));
  }

  lemma NumbersInFront(statements: string, covered: string, missed: string, percent: string, more: string)
    ensures (statements + " | " + (covered + " | " + (missed + " | " + (percent + "% | ")))) + more ==
              statements + (" | " + (covered + (" | " + (missed + (" | " + ((percent + "%") + (" | " + more)))))))
  {
    assert (percent + "% | ") + more == (percent + "%") + (" | " + more);
    assert (missed + " | " + (percent + "% | ")) + more == missed + (" | " + ((percent + "% | ") + more));
    assert (covered + " | " + (missed + " | " + (percent + "% | "))) + more ==
           covered + (" | " + ((missed + " | " + (percent + "% | ")) + more));
  }

  lemma PathInFront(path: string, more: string)
    ensures "| `" + (path + ("` | " + more)) == "| " + (("`" + path + "`") + (" | " + more))
  {
    assert "` | " + more == "`" + (" | " + more);
  }

  function RowColumns(r: FileRow): seq<string> {
    ["", Padded("`" + MarkdownCell(r.path) + "`"), Padded(r.statements), Padded(r.covered), Padded(r.missed),
     Padded(r.percent + "%"), Padded(MarkdownCell(CompactRanges(r.ranges))), ""]
  }

  /** The row of a file has its path, its numbers and its labelled ranges in their
      columns, whatever bars the path and the ranges contain. */
  lemma RowReads(r: FileRow)
    requires Lacks(r.statements, '|') && Lacks(r.covered, '|') && Lacks(r.missed, '|') && Lacks(r.percent, '|')
    ensures Columns(RowText(r)) == RowColumns(r)
  {
    CellReads(r.path);
    CellReads(CompactRanges(r.ranges));
    SealedAppend("`", MarkdownCell(r.path));
    SealedAppend("`" + MarkdownCell(r.path), "`");
    SealedAppend(r.percent, "%");
    RowIsBarred(r);
    SixRead("`" + MarkdownCell(r.path) + "`", r.statements, r.covered, r.missed, r.percent + "%", MarkdownCell(CompactRanges(r.ranges)));
  }

  lemma SixPadded(a: string, b: string, c: string, d: string, e: string, f: string)
    ensures AllPadded([a, b, c, d, e, f]) == [Padded(a), Padded(b), Padded(c), Padded(d), Padded(e), Padded(f)]
  {
    assert [a, b, c, d, e, f][1..] == [b, c, d, e, f] && [b, c, d, e, f][1..] == [c, d, e, f];
    assert [c, d, e, f][1..] == [d, e, f] && [d, e, f][1..] == [e, f] && [e, f][1..] == [f] && [f][1..] == [];
    assert AllPadded([f]) == [Padded(f)] by { assert AllPadded([]) == []; }
    assert AllPadded([d, e, f]) == [Padded(d), Padded(e), Padded(f)] by { assert AllPadded([e, f]) == [Padded(e), Padded(f)]; }
    assert AllPadded([b, c, d, e, f]) == [Padded(b), Padded(c), Padded(d), Padded(e), Padded(f)] by {
      assert AllPadded([c, d, e, f]) == [Padded(c), Padded(d), Padded(e), Padded(f)];
    }
  }

  lemma SixRead(a: string, b: string, c: string, d: string, e: string, f: string)
    requires Sealed(a) && Sealed(b) && Sealed(c) && Sealed(d) && Sealed(e) && Sealed(f)
    ensures Columns("|" + Cells([a, b, c, d, e, f])) == ["", Padded(a), Padded(b), Padded(c), Padded(d), Padded(e), Padded(f), ""]
  {
    BarredRead([a, b, c, d, e, f]);
    SixPadded(a, b, c, d, e, f);
  }

  // ----- the summary -----

  /** The lines are the front's, then one line a row, in order. */
  ghost predicate RowsBelow(lines: seq<string>, front: seq<string>, rows: seq<FileRow>) {
    && |lines| == |front| + |rows| && lines[..|front|] == front
    && forall i | 0 <= i < |rows| :: lines[|front| + i] == RowText(rows[i])
  }

  lemma RowBelow(lines: seq<string>, front: seq<string>, rows: seq<FileRow>, r: FileRow)
    requires RowsBelow(lines, front, rows)
    ensures RowsBelow(lines + [RowText(r)], front, rows + [r])
  {
  }

  lemma SplitRow(front: string, r: FileRow)
    requires OneLine(r)
    ensures SplitAt(front + ("\n" + RowText(r)), '\n') == SplitAt(front, '\n') + [RowText(r)]
  {
    RowIsOneLine(r);
    SplitNone(RowText(r), '\n');
    SplitConcat(front, '\n', RowText(r));
  }

  lemma Associate(a: string, b: string, c: string)
    ensures a + (b + c) == (a + b) + c
  {
  }

  lemma TableStep(head: string, rows: seq<FileRow>, r: FileRow)
    ensures head + Table(rows + [r]) == (head + Table(rows)) + ("\n" + RowText(r))
  {
    assert (rows + [r])[..|rows|] == rows;
    Associate(head, Table(rows), "\n" + RowText(r));
  }

  lemma NoRowBelow(head: string)
    ensures RowsBelow(SplitAt(head + Table([]), '\n'), SplitAt(head, '\n'), [])
  {
    assert Table([]) == "" && head + "" == head;
  }

  lemma {:induction false} TableReads(head: string, rows: seq<FileRow>)
    requires forall r | r in rows :: OneLine(r)
    ensures RowsBelow(SplitAt(head + Table(rows), '\n'), SplitAt(head, '\n'), rows)
  {
    if rows == [] {
      NoRowBelow(head);
    } else {
      var init, last := rows[..|rows| - 1], rows[|rows| - 1];
      TableReads(head, init);
      SplitRow(head + Table(init), last);
      RowBelow(SplitAt(head + Table(init), '\n'), SplitAt(head, '\n'), init, last);
      TableStep(head, init, last);
      assert init + [last] == rows;
    }
  }

  /** Below its head the summary has one line a file, in order. */
  lemma SummaryReads(rows: seq<FileRow>)
    requires rows != [] && forall r | r in rows :: OneLine(r)
    ensures RowsBelow(SplitAt(Summary(rows), '\n'), SplitAt(SummaryHead(), '\n'), rows)
  {
    TableReads(SummaryHead(), rows);
  }

  /** Without files it has one line that says so. */
  lemma NoRowReads()
    ensures SplitAt(Summary([]), '\n') == SplitAt(SummaryHead(), '\n') + [NO_DEBT_FILE[1..] + NO_DEBT_COUNTS]
  {
    NoDebtFileTame();
    NoDebtCountsLine();
    NoDebtLine();
    SplitNone(NO_DEBT_FILE[1..] + NO_DEBT_COUNTS, '\n');
    SplitConcat(SummaryHead(), '\n', NO_DEBT_FILE[1..] + NO_DEBT_COUNTS);
    Associate(['\n'], NO_DEBT_FILE[1..], NO_DEBT_COUNTS);
    assert NO_DEBT_FILE == ['\n'] + NO_DEBT_FILE[1..];
  }

  lemma NoDebtLine()
    ensures Lacks(NO_DEBT_FILE[1..] + NO_DEBT_COUNTS, '\n')
  {
    var file := "| _No uncovered package lines_ ";
    assert NO_DEBT_FILE[1..] == file && Lacks(file, '\n');
    NoDebtCountsLine();
    LacksAppend(file, NO_DEBT_COUNTS, '\n');
  }

  // ----- the measurements -----

  /** A measurement holds a commit and the totals of a valid summary. */
  lemma MeasurementMeans(m: Measurement)
    ensures ValidMeasurement(m) <==> CommitName(m.sourceCommit) && ValidSummary(m.statements, m.covered, m.missed, m.percent)
  {
  }

  /** The link to a commit, by its first twelve digits. */
  function Link(commit: string, repository: string): string
    requires |commit| >= 12
  {
    "[`" + commit[..12] + "`](https://github.com/" + repository + "/commit/" + commit + ")"
  }

  lemma Later(front: string, cell: string, more: string)
    ensures (front + " | " + cell) + more == front + (" | " + (cell + more))
  {
    assert (front + " | " + cell) + more == (front + " | ") + (cell + more);
  }

  /** Six cells, written from the front. */
  lemma SixFromFront(a: string, b: string, c: string, d: string, e: string, f: string)
    ensures "|" + Cells([a, b, c, d, e, f]) ==
              "| " + a + " | " + b + " | " + c + " | " + d + " | " + e + " | " + f + " |"
  {
    SixCells(a, b, c, d, e, f);
    var front := "| " + a + " | " + b + " | " + c + " | " + d;
    Later(front + " | " + e, f, " |");
    Later(front, e, " | " + (f + " |"));
    Later("| " + a + " | " + b + " | " + c, d, " | " + (e + (" | " + (f + " |"))));
    Later("| " + a + " | " + b, c, " | " + (d + (" | " + (e + (" | " + (f + " |"))))));
    Later("| " + a, b, " | " + (c + (" | " + (d + (" | " + (e + (" | " + (f + " |"))))))));
    assert ("| " + a) + (" | " + (b + (" | " + (c + (" | " + (d + (" | " + (e + (" | " + (f + " |")))))))))) ==
           "| " + (a + (" | " + (b + (" | " + (c + (" | " + (d + (" | " + (e + (" | " + (f + " |")))))))))));
  }

  function MeasurementCells(name: string, m: Measurement, repository: string): seq<string>
    requires ValidMeasurement(m)
  {
    [name, Link(m.sourceCommit, repository), Number(m.statements), Number(m.covered), Number(m.missed), m.percent + "%"]
  }

  function MeasurementLine(name: string, m: Measurement, repository: string): string
    requires ValidMeasurement(m)
  {
    "|" + Cells(MeasurementCells(name, m, repository))
  }

  lemma MeasurementIsBarred(name: string, m: Measurement, repository: string)
    requires ValidMeasurement(m)
    ensures MeasurementRow(name, m, repository) == MeasurementLine(name, m, repository) + "\n"
  {
    SixFromFront(name, Link(m.sourceCommit, repository), Number(m.statements), Number(m.covered), Number(m.missed), m.percent + "%");
    LinkInside("| " + name, m.sourceCommit[..12], repository, m.sourceCommit, Number(m.statements));
    var front := "| " + name + " | " + Link(m.sourceCommit, repository) + " | " + Number(m.statements);
    PercentLast(front + " | " + Number(m.covered) + " | " + Number(m.missed), m.percent);
  }

  lemma LinkInside(front: string, short: string, repository: string, commit: string, statements: string)
    ensures front + " | [`" + short + "`](https://github.com/" + repository + "/commit/" + commit + ") | " + statements ==
              front + " | " + ("[`" + short + "`](https://github.com/" + repository + "/commit/" + commit + ")") + " | " + statements
  {
  }

  lemma PercentLast(front: string, percent: string)
    ensures front + " | " + percent + "% |\n" == front + " | " + (percent + "%") + " |" + "\n"
  {
  }

  lemma RepositoryLacks(repository: string, c: char)
    requires ValidRepository(repository) && (c == '|' || c == '\n')
    ensures Lacks(repository, c)
  {
  }

  lemma NumberLacks(n: nat, c: char)
    requires c == '|' || c == '\n'
    ensures Lacks(Number(n), c)
  {
    DecimalPrints(n);
  }

  lemma LinkLacks(commit: string, repository: string, c: char)
    requires CommitName(commit) && Lacks(repository, c) && (c == '|' || c == '\n')
    ensures Lacks(Link(commit, repository), c)
  {
    assert Lacks(commit, c);
    LacksAppend("[`", commit[..12], c);
    LacksAppend("[`" + commit[..12], "`](https://github.com/", c);
    LacksAppend("[`" + commit[..12] + "`](https://github.com/", repository, c);
    LacksAppend("[`" + commit[..12] + "`](https://github.com/" + repository, "/commit/", c);
    LacksAppend("[`" + commit[..12] + "`](https://github.com/" + repository + "/commit/", commit, c);
    LacksAppend("[`" + commit[..12] + "`](https://github.com/" + repository + "/commit/" + commit, ")", c);
  }

  /** The line shows the measurement under its name. */
  ghost predicate Shows(line: string, name: string, m: Measurement, repository: string) {
    && |m.sourceCommit| >= 12
    && Columns(line) == ["", Padded(name), Padded(Link(m.sourceCommit, repository)), Padded(Number(m.statements)),
                         Padded(Number(m.covered)), Padded(Number(m.missed)), Padded(m.percent + "%"), ""]
  }

  predicate Plain(cells: seq<string>, c: char) { forall cell | cell in cells :: Lacks(cell, c) }

  lemma CellsPlain(name: string, m: Measurement, repository: string, c: char)
    requires ValidMeasurement(m) && ValidRepository(repository) && Lacks(name, c) && (c == '|' || c == '\n')
    ensures Plain(MeasurementCells(name, m, repository), c)
  {
    RepositoryLacks(repository, c);
    LinkLacks(m.sourceCommit, repository, c);
    NumberLacks(m.statements, c);
    NumberLacks(m.covered, c);
    NumberLacks(m.missed, c);
    LacksAppend(m.percent, "%", c);
  }

  lemma PlainIsSealed(cells: seq<string>)
    requires Plain(cells, '|')
    ensures Columns("|" + Cells(cells)) == [""] + AllPadded(cells) + [""]
  {
    forall cell | cell in cells ensures Sealed(cell) { assert Lacks(cell, '|'); }
    BarredRead(cells);
  }

  lemma MeasurementReads(name: string, m: Measurement, repository: string)
    requires ValidMeasurement(m) && ValidRepository(repository) && Lacks(name, '|') && Lacks(name, '\n')
    ensures Lacks(MeasurementLine(name, m, repository), '\n') && Shows(MeasurementLine(name, m, repository), name, m, repository)
  {
    var cells := MeasurementCells(name, m, repository);
    CellsPlain(name, m, repository, '|');
    CellsPlain(name, m, repository, '\n');
    CellsLack(cells, '\n');
    LacksAppend("|", Cells(cells), '\n');
    PlainIsSealed(cells);
    SixPadded(name, Link(m.sourceCommit, repository), Number(m.statements), Number(m.covered), Number(m.missed), m.percent + "%");
  }

  lemma {:induction false} CellsLack(cells: seq<string>, c: char)
    requires c != '|' && c != ' ' && Plain(cells, c)
    ensures Lacks(Cells(cells), c)
  {
    if cells != [] {
      assert Lacks(cells[0], c);
      CellsLack(cells[1..], c);
      LacksAppend(" ", cells[0], c);
      LacksAppend(" " + cells[0], " ", c);
      LacksAppend("|", Cells(cells[1..]), c);
      LacksAppend(Padded(cells[0]), "|" + Cells(cells[1..]), c);
    }
  }

  // ----- the head -----

  const ALIGNMENT := "|---|---|---:|---:|---:|---:|"

  lemma FirstTitles()
    ensures COLUMNS[0] == "| " + "Measurement" + " | " + "Source commit" + " "
  {
  }

  lemma MiddleTitles()
    ensures COLUMNS[1] == "| " + "Statements" + " | " + "Covered" + " | " + "Missed" + " "
  {
  }

  lemma LastTitle()
    ensures COLUMNS[2] == "| " + "Coverage" + " |" + "\n" && COLUMNS[3] == ALIGNMENT + "\n"
  {
  }

  lemma JoinPieces(a: string, b: string, c: string, d: string)
    ensures Join([a, b, c, d]) == a + b + c + d
  {
    JoinAppend([a, b, c], d);
    JoinAppend([a, b], c);
    JoinAppend([a], b);
    JoinAppend([], a);
    assert Join([]) == "" && [a, b, c] + [d] == [a, b, c, d] && [a, b] + [c] == [a, b, c] && [a] + [b] == [a, b] && [] + [a] == [a];
  }

  lemma TitlesJoin(a: string, b: string, c: string, d: string, e: string, f: string, more: string)
    ensures ("| " + a + " | " + b + " ") + ("| " + c + " | " + d + " | " + e + " ") + ("| " + f + " |" + "\n") + more ==
              "| " + a + " | " + b + " | " + c + " | " + d + " | " + e + " | " + f + " |" + ("\n" + more)
  {
    assert " " + "| " == " | ";
  }

  function TitleLine(): string {
    "|" + Cells(["Measurement", "Source commit", "Statements", "Covered", "Missed", "Coverage"])
  }

  lemma ColumnsAre()
    ensures Join(COLUMNS) == TitleLine() + ("\n" + ALIGNMENT + "\n")
  {
    FirstTitles();
    MiddleTitles();
    LastTitle();
    JoinPieces(COLUMNS[0], COLUMNS[1], COLUMNS[2], COLUMNS[3]);
    SixFromFront("Measurement", "Source commit", "Statements", "Covered", "Missed", "Coverage");
    TitlesJoin("Measurement", "Source commit", "Statements", "Covered", "Missed", "Coverage", ALIGNMENT + "\n");
    Associate("\n", ALIGNMENT, "\n");
    assert COLUMNS == [COLUMNS[0], COLUMNS[1], COLUMNS[2], COLUMNS[3]];
  }

  lemma TitleLineReads()
    ensures Columns(TitleLine()) == ["", Padded("Measurement"), Padded("Source commit"), Padded("Statements"),
                                     Padded("Covered"), Padded("Missed"), Padded("Coverage"), ""]
  {
    TitlesSealed();
    SixRead("Measurement", "Source commit", "Statements", "Covered", "Missed", "Coverage");
  }

  lemma TitlesSealed()
    ensures Sealed("Measurement") && Sealed("Source commit") && Sealed("Statements")
    ensures Sealed("Covered") && Sealed("Missed") && Sealed("Coverage")
  {
  }

  lemma TitleLineLacks()
    ensures Lacks(TitleLine(), '\n') && Lacks(ALIGNMENT, '\n')
  {
    var cells := ["Measurement", "Source commit", "Statements", "Covered", "Missed", "Coverage"];
    assert forall cell | cell in cells :: Lacks(cell, '\n');
    CellsLack(cells, '\n');
    LacksAppend("|", Cells(cells), '\n');
  }

  /** The text is these lines, each closed. */
  predicate Closes(text: string, lines: seq<string>) {
    text != "" && Last(text) == '\n' && SplitAt(Init(text), '\n') == lines
  }

  lemma CloseLine(text: string, lines: seq<string>, line: string)
    requires Closes(text, lines) && Lacks(line, '\n')
    ensures Closes(text + (line + "\n"), lines + [line])
  {
    SplitNone(line, '\n');
    SplitConcat(Init(text), '\n', line);
    assert Init(text + (line + "\n")) == Init(text) + (['\n'] + line);
  }

  lemma ClosedLines(text: string, lines: seq<string>)
    requires Closes(text, lines)
    ensures SplitAt(text, '\n') == lines + [""]
  {
    SplitNone("", '\n');
    SplitConcat(Init(text), '\n', "");
    assert text == Init(text) + (['\n'] + "");
  }

  lemma IntroductionEnds()
    ensures TITLE + Join(NOTE) != "" && Last(TITLE + Join(NOTE)) == '\n'
  {
    JoinAppend(NOTE[..4], NOTE[4]);
    assert NOTE == NOTE[..4] + [NOTE[4]];
    assert Last(NOTE[4]) == '\n';
  }

  lemma TitlesBehind(front: string, titles: string, alignment: string)
    ensures front + (titles + ("\n" + alignment + "\n")) == (front + (titles + "\n")) + (alignment + "\n")
  {
  }

  lemma HeadLines(front: string, titles: string, alignment: string, a: string, b: string, c: string) returns (lines: seq<string>)
    requires front != "" && Last(front) == '\n'
    requires Lacks(titles, '\n') && Lacks(alignment, '\n') && Lacks(a, '\n') && Lacks(b, '\n') && Lacks(c, '\n')
    ensures SplitAt((front + (titles + ("\n" + alignment + "\n"))) + (a + "\n") + (b + "\n") + (c + "\n") + "\n", '\n') ==
              lines + [titles] + [alignment] + [a] + [b] + [c] + [""] + [""]
  {
    lines := SplitAt(Init(front), '\n');
    CloseLine(front, lines, titles);
    CloseLine(front + (titles + "\n"), lines + [titles], alignment);
    TitlesBehind(front, titles, alignment);
    var text, more := front + (titles + ("\n" + alignment + "\n")), lines + [titles] + [alignment];
    CloseLine(text, more, a);
    CloseLine(text + (a + "\n"), more + [a], b);
    CloseLine(text + (a + "\n") + (b + "\n"), more + [a] + [b], c);
    CloseLine(text + (a + "\n") + (b + "\n") + (c + "\n"), more + [a] + [b] + [c], "");
    ClosedLines(text + (a + "\n") + (b + "\n") + (c + "\n") + ("" + "\n"), more + [a] + [b] + [c] + [""]);
    assert "" + "\n" == "\n";
  }

  /** The last lines are the titles and then the current, the previous and the best
      measurement, each under its name, with its link, counts and percentage in the
      columns so titled. */
  ghost predicate Reports(lines: seq<string>, s: State, repository: string) {
    && |lines| >= 7
    && var n := |lines| - 7;
    && Columns(lines[n]) == ["", Padded("Measurement"), Padded("Source commit"), Padded("Statements"),
                             Padded("Covered"), Padded("Missed"), Padded("Coverage"), ""]
    && Shows(lines[n + 2], "Current", s.current, repository)
    && Shows(lines[n + 3], "Previous", s.previous, repository)
    && Shows(lines[n + 4], "High water", s.best, repository)
    && lines[n + 5] == "" && lines[n + 6] == ""
  }

  lemma MeasurementCloses(name: string, m: Measurement, repository: string)
    requires ValidMeasurement(m) && ValidRepository(repository) && Lacks(name, '|') && Lacks(name, '\n')
    ensures MeasurementRow(name, m, repository) == MeasurementLine(name, m, repository) + "\n"
    ensures Lacks(MeasurementLine(name, m, repository), '\n')
  {
    MeasurementReads(name, m, repository);
    MeasurementIsBarred(name, m, repository);
  }

  function EndOf(lines: seq<string>, a: string, b: string, c: string): seq<string> {
    lines + [TitleLine()] + [ALIGNMENT] + [a] + [b] + [c] + [""] + [""]
  }

  lemma HeadReports(s: State, repository: string) returns (lines: seq<string>)
    requires ValidState(s) && ValidRepository(repository)
    ensures SplitAt(Head(s, repository), '\n') ==
              EndOf(lines, MeasurementLine("Current", s.current, repository), MeasurementLine("Previous", s.previous, repository),
                    MeasurementLine("High water", s.best, repository))
  {
    MeasurementCloses("Current", s.current, repository);
    MeasurementCloses("Previous", s.previous, repository);
    MeasurementCloses("High water", s.best, repository);
    IntroductionEnds();
    TitleLineLacks();
    ColumnsAre();
    lines := HeadLines(TITLE + Join(NOTE), TitleLine(), ALIGNMENT, MeasurementLine("Current", s.current, repository),
      MeasurementLine("Previous", s.previous, repository), MeasurementLine("High water", s.best, repository));
  }

  lemma LinesReport(lines: seq<string>, a: string, b: string, c: string, s: State, repository: string)
    requires Shows(a, "Current", s.current, repository) && Shows(b, "Previous", s.previous, repository)
    requires Shows(c, "High water", s.best, repository)
    ensures Reports(EndOf(lines, a, b, c), s, repository)
  {
    TitleLineReads();
  }

  lemma LinesRead(lines: seq<string>, s: State, repository: string)
    requires ValidState(s) && ValidRepository(repository)
    ensures Reports(EndOf(lines, MeasurementLine("Current", s.current, repository), MeasurementLine("Previous", s.previous, repository),
                          MeasurementLine("High water", s.best, repository)), s, repository)
  {
    MeasurementReads("Current", s.current, repository);
    MeasurementReads("Previous", s.previous, repository);
    MeasurementReads("High water", s.best, repository);
    LinesReport(lines, MeasurementLine("Current", s.current, repository), MeasurementLine("Previous", s.previous, repository),
      MeasurementLine("High water", s.best, repository), s, repository);
  }

  /** The head ends with the table of the measurements. */
  lemma HeadReads(s: State, repository: string)
    requires ValidState(s) && ValidRepository(repository)
    ensures Reports(SplitAt(Head(s, repository), '\n'), s, repository)
  {
    var lines := HeadReports(s, repository);
    LinesRead(lines, s, repository);
  }

  // ----- a built row -----

  /** The cell is the numeral of n between blanks. */
  ghost predicate ShowsNumber(cell: string, n: int) {
    |cell| > 2 && cell == Padded(cell[1..|cell| - 1]) && Digits(cell[1..|cell| - 1]) && Numeral(cell[1..|cell| - 1]) == n
  }

  lemma NumberShows(n: nat)
    ensures ShowsNumber(Padded(Number(n)), n)
  {
    DecimalPrints(n);
    assert Padded(Number(n))[1..|Number(n)| + 1] == Number(n);
  }

  ghost predicate ShowsCounts(columns: seq<string>, d: DebtFile) {
    |columns| == 8 && ShowsNumber(columns[2], d.statements) && ShowsNumber(columns[3], d.covered) && ShowsNumber(columns[4], d.missed)
  }

  ghost predicate ShowsText(columns: seq<string>, d: DebtFile) {
    && |columns| == 8 && columns[1] == Padded("`" + MarkdownCell(d.path) + "`") && columns[5] == Padded(d.percent + "%")
    && columns[6] == Padded(MarkdownCell(CompactRanges(LabelledRanges(d.ranges))))
  }

  lemma CountsShow(columns: seq<string>, d: DebtFile)
    requires ValidSummary(d.statements, d.covered, d.missed, d.percent) && |columns| == 8
    requires columns[2] == Padded(Number(d.statements)) && columns[3] == Padded(Number(d.covered)) && columns[4] == Padded(Number(d.missed))
    ensures ShowsCounts(columns, d)
  {
    NumberShows(d.statements);
    NumberShows(d.covered);
    NumberShows(d.missed);
  }

  /** In the row of a file that the report lists, the columns show the report's path,
      numbers, percentage and ranges. */
  lemma BuiltReads(d: DebtFile)
    requires ValidSummary(d.statements, d.covered, d.missed, d.percent)
    ensures ShowsCounts(Columns(RowText(RowOf(d))), d) && ShowsText(Columns(RowText(RowOf(d))), d)
  {
    NumberLacks(d.statements, '|');
    NumberLacks(d.covered, '|');
    NumberLacks(d.missed, '|');
    RowReads(RowOf(d));
    CountsShow(RowColumns(RowOf(d)), d);
  }
}
