/** scripts/coverage_debt.py: the rows of the tracker comment's file table. */
module TrackerRows {
  import opened Text
  import opened StateJson

  /** One table cell: white space collapsed, bars escaped. */
  function MarkdownCell(s: string): string {
    Replace(Collapsed(s), "|", "\\|")
  }

  datatype LabelledRange = LabelledRange(heading: string, display: string)

  /** The fields of a file as the report holds them; the numbers and the percentage as
      they are written. */
  datatype FileRow = FileRow(path: string, statements: string, covered: string, missed: string, percent: string,
                             ranges: seq<LabelledRange>)

  /** The labels in the order of their first ranges. */
  function Labels(ranges: seq<LabelledRange>): seq<string> {
    if ranges == [] then []
    else
      var labels, last := Labels(ranges[..|ranges| - 1]), ranges[|ranges| - 1].heading;
      if last in labels then labels else labels + [last]
  }

  function Displays(ranges: seq<LabelledRange>, heading: string): seq<string> {
    if ranges == [] then []
    else
      var last := ranges[|ranges| - 1];
      Displays(ranges[..|ranges| - 1], heading) + if last.heading == heading then [last.display] else []
  }

  function Groups(ranges: seq<LabelledRange>, labels: seq<string>): seq<string> {
    if labels == [] then []
    else
      var last := labels[|labels| - 1];
      Groups(ranges, labels[..|labels| - 1]) + [last + ": " + JoinWith(", ", Displays(ranges, last))]
  }

  function CompactRanges(ranges: seq<LabelledRange>): string {
    JoinWith("; ", Groups(ranges, Labels(ranges)))
  }

  function Numbers(r: FileRow): string {
    r.statements + " | " + (r.covered + " | " + (r.missed + " | " + (r.percent + "% | ")))
  }

  function RowText(r: FileRow): string {
    "| `" + (MarkdownCell(r.path) + ("` | " + (Numbers(r) + (MarkdownCell(CompactRanges(r.ranges)) + " |"))))
  }

  /** The written numbers and percentage have no line break. */
  predicate OneLine(r: FileRow) {
    Lacks(r.statements, '\n') && Lacks(r.covered, '\n') && Lacks(r.missed, '\n') && Lacks(r.percent, '\n')
  }

  /** The row of a file whose numbers were validated, as in every built report. */
  function ValidatedRow(path: string, statements: nat, covered: nat, missed: nat, percent: string, ranges: seq<LabelledRange>): FileRow
    requires TwoDecimals(percent)
  {
    FileRow(path, Decimal(statements), Decimal(covered), Decimal(missed), percent, ranges)
  }

  lemma ValidatedIsOneLine(path: string, statements: nat, covered: nat, missed: nat, percent: string, ranges: seq<LabelledRange>)
    requires TwoDecimals(percent)
    ensures OneLine(ValidatedRow(path, statements, covered, missed, percent, ranges))
  {
    DecimalValue(statements);
    DecimalValue(covered);
    DecimalValue(missed);
  }

  // ----- a cell is one line -----

  lemma {:induction false} WordsLack(s: string, c: char)
    requires Space(c) || Lacks(s, c)
    ensures forall w | w in Words(s) :: Lacks(w, c)
  {
    if s != "" {
      var init, last := s[..|s| - 1], s[|s| - 1];
      WordsLack(init, c);
      var words := Words(init);
      if !Space(last) && init != "" && !Space(init[|init| - 1]) {
        assert words[|words| - 1] in words;
        LacksAppend(words[|words| - 1], [last], c);
        assert forall w | w in words[..|words| - 1] :: w in words;
      }
    }
  }

  lemma {:induction false} JoinWithLacks(separator: string, parts: seq<string>, c: char)
    requires Lacks(separator, c) && forall part | part in parts :: Lacks(part, c)
    ensures Lacks(JoinWith(separator, parts), c)
  {
    if |parts| > 1 {
      var init, last := parts[..|parts| - 1], parts[|parts| - 1];
      JoinWithLacks(separator, init, c);
      LacksAppend(JoinWith(separator, init), separator, c);
      LacksAppend(JoinWith(separator, init) + separator, last, c);
    }
  }

  lemma {:induction false} ReplaceLacks(text: string, word: string, mark: string, c: char)
    requires word != "" && Lacks(text, c) && Lacks(mark, c)
    ensures Lacks(Replace(text, word, mark), c)
  {
    if text != "" {
      var n := if OccursAt(text, 0, word) then |word| else 1;
      ReplaceLacks(text[n..], word, mark, c);
      LacksAppend(if OccursAt(text, 0, word) then mark else [text[0]], Replace(text[n..], word, mark), c);
    }
  }

  /** A cell gets no character but blanks and backslashes. */
  lemma CellLacks(s: string, c: char)
    requires (Space(c) || Lacks(s, c)) && c != ' ' && c != '|' && c != '\\'
    ensures Lacks(MarkdownCell(s), c)
  {
    WordsLack(s, c);
    JoinWithLacks(" ", Words(s), c);
    ReplaceLacks(Collapsed(s), "|", "\\|", c);
  }

  lemma NumbersAreOneLine(r: FileRow)
    requires OneLine(r)
    ensures Lacks(Numbers(r), '\n')
  {
    LacksAppend(r.percent, "% | ", '\n');
    LacksAppend(" | ", r.percent + "% | ", '\n');
  }

  /** Whatever the path and the ranges contain, the row of a file with one-line numbers
      is one line. */
  lemma RowIsOneLine(r: FileRow)
    requires OneLine(r)
    ensures Lacks(RowText(r), '\n')
  {
    var ranges := MarkdownCell(CompactRanges(r.ranges));
    CellLacks(r.path, '\n');
    CellLacks(CompactRanges(r.ranges), '\n');
    NumbersAreOneLine(r);
    LacksAppend(ranges, " |", '\n');
    LacksAppend(Numbers(r), ranges + " |", '\n');
    LacksAppend("` | ", Numbers(r) + (ranges + " |"), '\n');
    LacksAppend(MarkdownCell(r.path), "` | " + (Numbers(r) + (ranges + " |")), '\n');
    LacksAppend("| `", MarkdownCell(r.path) + ("` | " + (Numbers(r) + (ranges + " |"))), '\n');
  }
}
