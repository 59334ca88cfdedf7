/** scripts/coverage_debt.py: how a marker can get into the table of the tracker
    comment. No occurrence crosses the border of a cell. */
module TrackerCells {
  import opened Basics
  import opened Text
  import opened Markers
  import opened StateJson
  import opened TrackerRows
  import opened TrackerLayout

  /** A marker that can cross no border: none of its characters borders a cell but the
      blank, which does not end it, and it starts with an angle bracket. */
  predicate CellMarker(word: string) {
    |word| > 1 && word[0] == '<' && Last(word) != ' ' && Lacks(word, '|') && Lacks(word, '`') && Lacks(word, '\n')
  }

  lemma ReportMarkerIsCell()
    ensures CellMarker(REPORT_MARKER)
  {
    var rest := "-latest-report -->";
    assert Lacks(NAME, '|') && Lacks(NAME, '`') && Lacks(NAME, '\n');
    assert Lacks(rest, '|') && Lacks(rest, '`') && Lacks(rest, '\n');
    LacksAppend(NAME, rest, '|');
    LacksAppend(NAME, rest, '`');
    LacksAppend(NAME, rest, '\n');
  }

  lemma FlatContainsNone(a: string, word: string)
    requires Flat(a) && CellMarker(word)
    ensures !Contains(a, word)
  {
    forall i: nat | i <= |a| ensures !OccursAt(a, i, word) { OccursChar(a, i, word, 0); }
  }

  /** A front without angle brackets brings no marker. */
  lemma FlatFront(a: string, b: string, word: string)
    requires Flat(a) && CellMarker(word)
    ensures Contains(a + b, word) <==> Contains(b, word)
  {
    forall i: nat | i < |a| && |a| < i + |word| ensures !OccursAt(a + b, i, word) { OccursChar(a + b, i, word, 0); }
    ContainsSplit(a, b, word);
    FlatContainsNone(a, word);
  }

  /** No occurrence crosses a character that the word lacks. */
  lemma ForeignCut(a: string, b: string, word: string)
    requires word != "" && b != "" && Lacks(word, b[0])
    ensures Contains(a + b, word) <==> Contains(a, word) || Contains(b, word)
  {
    forall i: nat | i < |a| && |a| < i + |word| ensures !OccursAt(a + b, i, word) {
      OccursChar(a + b, i, word, |a| - i);
    }
    ContainsSplit(a, b, word);
  }

  /** The end of a row brings no marker. */
  lemma RowEnd(cell: string, word: string)
    requires CellMarker(word)
    ensures Contains(cell + " |", word) <==> Contains(cell, word)
  {
    var all := cell + " |";
    forall i: nat | i < |cell| && |cell| < i + |word| ensures !OccursAt(all, i, word) {
      OccursChar(all, i, word, |word| - 1);
      if |cell| + 1 < i + |word| { OccursChar(all, i, word, |cell| + 1 - i); }
    }
    ContainsSplit(cell, " |", word);
    FlatContainsNone(" |", word);
  }

  /** The written numbers and percentage have no angle bracket. */
  predicate FlatNumbers(r: FileRow) { Flat(r.statements) && Flat(r.covered) && Flat(r.missed) && Flat(r.percent) }

  lemma NumbersFlat(r: FileRow)
    requires FlatNumbers(r)
    ensures Flat(Numbers(r))
  {
    FlatAppend(r.percent, "% | ");
    FlatAppend(" | ", r.percent + "% | ");
    FlatAppend(r.missed, " | " + (r.percent + "% | "));
  }

  /** The cells of a row that can hold a marker. */
  predicate CellsHold(r: FileRow, word: string) {
    Contains(MarkdownCell(r.path), word) || Contains(MarkdownCell(CompactRanges(r.ranges)), word)
  }

  lemma RowHolds(r: FileRow, word: string)
    requires FlatNumbers(r) && CellMarker(word)
    ensures Contains(RowText(r), word) <==> CellsHold(r, word)
  {
    NumbersFlat(r);
    CellsJoin(MarkdownCell(r.path), Numbers(r), MarkdownCell(CompactRanges(r.ranges)), word);
  }

  lemma CellsJoin(path: string, numbers: string, ranges: string, word: string)
    requires Flat(numbers) && CellMarker(word)
    ensures Contains("| `" + (path + ("` | " + (numbers + (ranges + " |")))), word) <==>
              Contains(path, word) || Contains(ranges, word)
  {
    RowEnd(ranges, word);
    FlatFront(numbers, ranges + " |", word);
    FlatFront("` | ", numbers + (ranges + " |"), word);
    ForeignCut(path, "` | " + (numbers + (ranges + " |")), word);
    FlatFront("| `", path + ("` | " + (numbers + (ranges + " |"))), word);
  }

  lemma {:induction false} TableHolds(rows: seq<FileRow>, word: string)
    requires CellMarker(word) && forall r | r in rows :: FlatNumbers(r)
    ensures Contains(Table(rows), word) <==> exists r | r in rows :: CellsHold(r, word)
  {
    if rows == [] {
      FlatContainsNone("", word);
    } else {
      var init, last := rows[..|rows| - 1], rows[|rows| - 1];
      assert rows == init + [last];
      TableHolds(init, word);
      RowHolds(last, word);
      FlatFront("\n", RowText(last), word);
      ForeignCut(Table(init), "\n" + RowText(last), word);
    }
  }

  lemma TextFlat()
    ensures Flat(SUMMARY_TITLE) && Flat(SUMMARY_START) && Flat(SUMMARY_MIDDLE)
  {
  }

  lemma TextEndFlat()
    ensures Flat(SUMMARY_DURABLE) && Flat(SUMMARY_END)
  {
  }

  lemma ColumnsFlat()
    ensures Flat(SUMMARY_COUNTS) && Flat(SUMMARY_RANGES) && Flat(SUMMARY_SIDES)
  {
  }

  lemma HeadJoinsFlat(a: string, b: string, c: string, d: string, e: string, f: string, g: string, h: string)
    requires Flat(a) && Flat(b) && Flat(c) && Flat(d) && Flat(e) && Flat(f) && Flat(g) && Flat(h)
    ensures Flat(a + (b + (c + (d + (e + (f + (g + h)))))))
  {
    FlatAppend(g, h);
    FlatAppend(f, g + h);
    FlatAppend(e, f + (g + h));
    FlatAppend(d, e + (f + (g + h)));
    FlatAppend(c, d + (e + (f + (g + h))));
    FlatAppend(b, c + (d + (e + (f + (g + h)))));
    FlatAppend(a, b + (c + (d + (e + (f + (g + h))))));
  }

  lemma SummaryHeadFlat()
    ensures Flat(SummaryHead())
  {
    TextFlat();
    TextEndFlat();
    ColumnsFlat();
    HeadJoinsFlat(SUMMARY_TITLE, SUMMARY_START, SUMMARY_MIDDLE, SUMMARY_DURABLE, SUMMARY_END, SUMMARY_COUNTS, SUMMARY_RANGES, SUMMARY_SIDES);
  }

  lemma NoDebtFlat()
    ensures Flat(NO_DEBT_FILE + NO_DEBT_COUNTS)
  {
    FlatAppend("\n", "| _No uncovered package lines_ ");
    FlatAppend(NO_DEBT_FILE, NO_DEBT_COUNTS);
  }

  /** The summary contains a marker if and only if a cell does: the path of a file, or
      its labelled ranges. */
  lemma SummaryHolds(rows: seq<FileRow>, word: string)
    requires CellMarker(word) && forall r | r in rows :: FlatNumbers(r)
    ensures Contains(Summary(rows), word) <==> exists r | r in rows :: CellsHold(r, word)
  {
    SummaryHeadFlat();
    NoDebtFlat();
    FlatContainsNone(NO_DEBT_FILE + NO_DEBT_COUNTS, word);
    TableHolds(rows, word);
    FlatFront(SummaryHead(), if rows == [] then NO_DEBT_FILE + NO_DEBT_COUNTS else Table(rows), word);
  }

  // ----- cells that stay as they are, or have no bracket -----

  predicate IsWord(s: string) { s != "" && forall i | 0 <= i < |s| :: !Space(s[i]) }

  lemma WordsSnoc(s: string, c: char)
    requires !Space(c)
    ensures var words := Words(s);
            if s == "" || Space(Last(s)) then Words(s + [c]) == words + [[c]]
            else words != [] && Words(s + [c]) == words[..|words| - 1] + [words[|words| - 1] + [c]]
  {
    assert (s + [c])[..|s|] == s;
  }

  lemma {:induction false} WordsAppend(front: string, word: string)
    requires IsWord(word) && (front == "" || Space(Last(front)))
    ensures Words(front + word) == Words(front) + [word]
  {
    var init, c := Init(word), Last(word);
    assert front + word == (front + init) + [c] && word == init + [c];
    if init == "" {
      assert front + init == front;
    } else {
      WordsAppend(front, init);
      assert Last(front + init) == Last(init);
    }
    WordsSnoc(front + init, c);
  }

  /** These are the words of the text. Folded until Same names the text. */
  ghost predicate Splits(s: string, words: seq<string>) { forall t | Same(t, s) :: Words(t) == words }

  lemma SplitsAlone(word: string)
    requires IsWord(word)
    ensures Splits(word, [word])
  {
    WordsAppend("", word);
    assert "" + word == word;
  }

  lemma SplitsGrow(s: string, words: seq<string>, word: string)
    requires IsWord(word) && Splits(s, words)
    ensures Splits(s + " " + word, words + [word])
  {
    assert Same(s, s);
    assert (s + " ")[..|s|] == s;
    WordsAppend(s + " ", word);
  }

  /** Words set apart by single blanks stay as they are. */
  lemma {:induction false} CollapsedFixed(words: seq<string>)
    requires words != [] && forall w | w in words :: IsWord(w)
    ensures Splits(JoinWith(" ", words), words)
  {
    var init, last := words[..|words| - 1], words[|words| - 1];
    if init == [] {
      SplitsAlone(last);
      assert words == [last];
    } else {
      CollapsedFixed(init);
      SplitsGrow(JoinWith(" ", init), init, last);
      assert words == init + [last];
    }
  }

  /** So does a cell of them without a bar. */
  lemma CellFixed(words: seq<string>)
    requires words != [] && forall w | w in words :: IsWord(w)
    requires Lacks(JoinWith(" ", words), '|')
    ensures MarkdownCell(JoinWith(" ", words)) == JoinWith(" ", words)
  {
    CollapsedFixed(words);
    var text := JoinWith(" ", words);
    assert Same(text, text);
    forall i: nat | i <= |text| ensures !OccursAt(text, i, "|") { OccursChar(text, i, "|", 0); }
    ReplaceNone(text, "|", "\\|");
  }

  predicate FlatRanges(ranges: seq<LabelledRange>) {
    forall r | r in ranges :: Flat(r.heading) && Flat(r.display)
  }

  lemma {:induction false} LabelsFlat(ranges: seq<LabelledRange>)
    requires FlatRanges(ranges)
    ensures forall l | l in Labels(ranges) :: Flat(l)
  {
    if ranges != [] {
      assert ranges[|ranges| - 1] in ranges;
      LabelsFlat(ranges[..|ranges| - 1]);
    }
  }

  lemma {:induction false} DisplaysFlat(ranges: seq<LabelledRange>, heading: string)
    requires FlatRanges(ranges)
    ensures forall display | display in Displays(ranges, heading) :: Flat(display)
  {
    if ranges != [] {
      assert ranges[|ranges| - 1] in ranges;
      DisplaysFlat(ranges[..|ranges| - 1], heading);
    }
  }

  lemma JoinWithFlat(separator: string, parts: seq<string>)
    requires Flat(separator) && forall part | part in parts :: Flat(part)
    ensures Flat(JoinWith(separator, parts))
  {
    forall part | part in parts ensures Lacks(part, '<') { assert Flat(part); }
    JoinWithLacks(separator, parts, '<');
  }

  lemma {:induction false} GroupsFlat(ranges: seq<LabelledRange>, labels: seq<string>)
    requires FlatRanges(ranges) && forall l | l in labels :: Flat(l)
    ensures forall group | group in Groups(ranges, labels) :: Flat(group)
  {
    if labels != [] {
      var last := labels[|labels| - 1];
      GroupsFlat(ranges, labels[..|labels| - 1]);
      DisplaysFlat(ranges, last);
      JoinWithFlat(", ", Displays(ranges, last));
      FlatAppend(last, ": ");
      FlatAppend(last + ": ", JoinWith(", ", Displays(ranges, last)));
    }
  }

  /** Labels and ranges without a bracket hold no marker. */
  lemma FlatRangesHoldNone(ranges: seq<LabelledRange>, word: string)
    requires FlatRanges(ranges) && CellMarker(word)
    ensures !Contains(MarkdownCell(CompactRanges(ranges)), word)
  {
    LabelsFlat(ranges);
    GroupsFlat(ranges, Labels(ranges));
    JoinWithFlat("; ", Groups(ranges, Labels(ranges)));
    CellLacks(CompactRanges(ranges), '<');
    FlatContainsNone(MarkdownCell(CompactRanges(ranges)), word);
  }
}
