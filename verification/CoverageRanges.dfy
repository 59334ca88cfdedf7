/** scripts/coverage_debt.py: classifications of lines and the compression of
    uncovered lines into classified ranges. */
module CoverageRanges {
  import opened Text

  datatype Classification = Classification(category: string, title: string, rationale: string)

  /** The categories and the labels the program gives them. */
  const CATEGORY_LABELS := [
    ("testable-behavior", "Testable behavior"), ("environment-specific", "Environment-specific"),
    ("upstream-native-constraint", "Upstream/native constraint"), ("defensive-invariant", "Defensive invariant"),
    ("dead-or-non-behavioral-code", "Dead or non-behavioral code")]

  /** Every classification that was loaded has the label of its category. */
  ghost predicate Labelled(c: Classification) {
    exists i | 0 <= i < |CATEGORY_LABELS| :: CATEGORY_LABELS[i] == (c.category, c.title)
  }

  ghost predicate FileLabelled(f: FileClassification) {
    Labelled(f.fallback) && forall o | o in f.overrides :: Labelled(o.classification)
  }

  datatype Override = Override(start: int, end: int, classification: Classification)

  datatype FileClassification = FileClassification(fallback: Classification, overrides: seq<Override>) {
    /** The first override that covers the line decides. */
    function ForLine(line: int): Classification
      decreases |overrides|
    {
      if overrides == [] then fallback
      else if overrides[0].start <= line <= overrides[0].end then overrides[0].classification
      else FileClassification(fallback, overrides[1..]).ForLine(line)
    }
  }

  datatype Range = Range(start: int, end: int, classification: Classification)

  // ----- loading the overrides -----

  datatype RawOverride = RawOverride(ranges: seq<(int, int)>, classification: Classification)

  datatype LoadError = NoRanges | InvalidSpan | Overlap

  predicate Apart(a: Override, b: Override) {
    a.end < b.start || b.end < a.start
  }

  /** Every listed range with its classification, in document order. */
  function Flatten(raw: seq<RawOverride>): seq<Override> {
    if raw == [] then []
    else Flatten(raw[..|raw| - 1]) + Spans(raw[|raw| - 1].ranges, raw[|raw| - 1].classification)
  }

  function Spans(ranges: seq<(int, int)>, c: Classification): seq<Override> {
    if ranges == [] then []
    else
      var last := ranges[|ranges| - 1];
      Spans(ranges[..|ranges| - 1], c) + [Override(last.0, last.1, c)]
  }

  ghost predicate PairwiseApart(overrides: seq<Override>) {
    forall a, b | 0 <= a < b < |overrides| :: Apart(overrides[a], overrides[b])
  }

  ghost predicate ValidSpans(overrides: seq<Override>) {
    forall o | o in overrides :: 1 <= o.start <= o.end
  }

  /** What the loader accepts. */
  ghost predicate Loadable(raw: seq<RawOverride>) {
    && (forall i | 0 <= i < |raw| :: raw[i].ranges != [])
    && ValidSpans(Flatten(raw)) && PairwiseApart(Flatten(raw))
  }

  ghost predicate SameElements<T(!new)>(a: seq<T>, b: seq<T>) {
    forall x :: x in a <==> x in b
  }

  lemma FlattenPrefix(raw: seq<RawOverride>, i: nat)
    requires i < |raw|
    ensures Flatten(raw[..i + 1]) == Flatten(raw[..i]) + Spans(raw[i].ranges, raw[i].classification)
  {
    assert raw[..i + 1][..i] == raw[..i];
  }

  lemma {:induction false} FlattenMonotone(raw: seq<RawOverride>, i: nat)
    requires i <= |raw|
    ensures Flatten(raw[..i]) <= Flatten(raw)
  {
    if i == |raw| {
      assert raw[..i] == raw;
    } else {
      FlattenMonotone(raw[..|raw| - 1], i);
      assert raw[..|raw| - 1][..i] == raw[..i];
    }
  }

  lemma {:induction false} SpansMonotone(ranges: seq<(int, int)>, j: nat, c: Classification)
    requires j <= |ranges|
    ensures Spans(ranges[..j], c) <= Spans(ranges, c)
  {
    if j == |ranges| {
      assert ranges[..j] == ranges;
    } else {
      SpansMonotone(ranges[..|ranges| - 1], j, c);
      assert ranges[..|ranges| - 1][..j] == ranges[..j];
    }
  }

  /** A failing prefix fails the whole document. */
  lemma PrefixFails(prefix: seq<Override>, next: Override, all: seq<Override>)
    requires prefix + [next] <= all
    requires !(1 <= next.start <= next.end) || exists o | o in prefix :: !Apart(o, next)
    ensures !(ValidSpans(all) && PairwiseApart(all))
  {
    assert all[|prefix|] == next && next in all;
    if exists o | o in prefix :: !Apart(o, next) {
      var k :| 0 <= k < |prefix| && !Apart(prefix[k], next);
      assert all[k] == prefix[k] && !Apart(all[k], all[|prefix|]);
    }
  }

  /** Accepts exactly the documents whose ranges are valid and disjoint, and
      returns their overrides in order of their first lines. */
  method LoadOverrides(fallback: Classification, raw: seq<RawOverride>) returns (r: Result<FileClassification, LoadError>)
    ensures r.Success? <==> Loadable(raw)
    ensures r.Success? ==>
              && r.value.fallback == fallback && SameElements(r.value.overrides, Flatten(raw))
              && forall a, b | 0 <= a < b < |r.value.overrides| :: r.value.overrides[a].start <= r.value.overrides[b].start
  {
    var overrides: seq<Override> := [];
    for i := 0 to |raw|
      invariant Loading(raw, i, overrides)
    {
      if raw[i].ranges == [] { return Failure(NoRanges); }
      FlattenPrefix(raw, i);
      FlattenMonotone(raw, i + 1);
      var added := AddRanges(overrides, raw[i].ranges, raw[i].classification, Flatten(raw));
      if added.Failure? { return Failure(added.error); }
      overrides := added.value;
    }
    assert raw[..|raw|] == raw;
    r := Success(FileClassification(fallback, SortOverrides(overrides)));
  }

  /** The first `i` entries are valid, and listed. */
  ghost predicate Loading(raw: seq<RawOverride>, i: nat, overrides: seq<Override>)
    requires i <= |raw|
  {
    && overrides == Flatten(raw[..i]) && ValidSpans(overrides) && PairwiseApart(overrides)
    && forall k | 0 <= k < i :: raw[k].ranges != []
  }

  /** The inner loop: the ranges of one entry. */
  method AddRanges(known: seq<Override>, ranges: seq<(int, int)>, c: Classification, ghost all: seq<Override>)
    returns (r: Result<seq<Override>, LoadError>)
    requires ValidSpans(known) && PairwiseApart(known) && known + Spans(ranges, c) <= all
    ensures r.Failure? ==> !(ValidSpans(all) && PairwiseApart(all))
    ensures r.Success? ==> r.value == known + Spans(ranges, c) && ValidSpans(r.value) && PairwiseApart(r.value)
  {
    var overrides := known;
    for j := 0 to |ranges|
      invariant overrides == known + Spans(ranges[..j], c)
      invariant ValidSpans(overrides) && PairwiseApart(overrides)
    {
      var (start, end) := ranges[j];
      var next := Override(start, end, c);
      NextSpan(known, ranges, j, c, all);
      if !(1 <= start <= end) {
        PrefixFails(overrides, next, all);
        return Failure(InvalidSpan);
      }
      if exists o | o in overrides :: !Apart(o, next) {
        PrefixFails(overrides, next, all);
        return Failure(Overlap);
      }
      overrides := overrides + [next];
    }
    assert ranges[..|ranges|] == ranges;
    r := Success(overrides);
  }

  lemma NextSpan(known: seq<Override>, ranges: seq<(int, int)>, j: nat, c: Classification, all: seq<Override>)
    requires j < |ranges| && known + Spans(ranges, c) <= all
    ensures var next := Override(ranges[j].0, ranges[j].1, c);
            && known + Spans(ranges[..j + 1], c) == known + Spans(ranges[..j], c) + [next]
            && known + Spans(ranges[..j], c) + [next] <= all
  {
    SpansMonotone(ranges, j + 1, c);
    assert ranges[..j + 1][..j] == ranges[..j];
    assert known + Spans(ranges[..j + 1], c) <= known + Spans(ranges, c);
  }

  function Insert(sorted: seq<Override>, o: Override): seq<Override> {
    if sorted != [] && (o.start < sorted[|sorted| - 1].start
                        || (o.start == sorted[|sorted| - 1].start && o.end < sorted[|sorted| - 1].end))
    then Insert(sorted[..|sorted| - 1], o) + [sorted[|sorted| - 1]]
    else sorted + [o]
  }

  function SortOverrides(overrides: seq<Override>): (r: seq<Override>)
    ensures SameElements(r, overrides)
    ensures forall a, b | 0 <= a < b < |r| :: r[a].start <= r[b].start
  {
    if overrides == [] then []
    else
      var init, last := overrides[..|overrides| - 1], overrides[|overrides| - 1];
      assert overrides == init + [last];
      InsertKeeps(SortOverrides(init), last);
      Insert(SortOverrides(init), last)
  }

  lemma {:induction false} InsertKeeps(sorted: seq<Override>, o: Override)
    requires forall a, b | 0 <= a < b < |sorted| :: sorted[a].start <= sorted[b].start
    ensures forall x :: x in Insert(sorted, o) <==> x in sorted || x == o
    ensures forall a, b | 0 <= a < b < |Insert(sorted, o)| :: Insert(sorted, o)[a].start <= Insert(sorted, o)[b].start
  {
    var r := Insert(sorted, o);
    if sorted != [] {
      var init, last := sorted[..|sorted| - 1], sorted[|sorted| - 1];
      assert sorted == init + [last];
      InsertKeeps(init, o);
      if r != sorted + [o] {
        var more := Insert(init, o);
        forall a | 0 <= a < |more| ensures more[a].start <= last.start {
          assert more[a] in more;
          if more[a] != o { var k :| 0 <= k < |init| && init[k] == more[a]; assert sorted[k] == more[a]; }
        }
      }
    }
  }

  // ----- disjoint overrides decide each line in any order -----

  lemma {:induction false} ForLineIs(f: FileClassification, line: int, o: Override)
    requires forall p | p in f.overrides && p != o :: Apart(p, o)
    requires o in f.overrides && o.start <= line <= o.end
    ensures f.ForLine(line) == o.classification
    decreases |f.overrides|
  {
    assert f.overrides[0] in f.overrides;
    if f.overrides[0] != o {
      ForLineIs(FileClassification(f.fallback, f.overrides[1..]), line, o);
    }
  }

  lemma {:induction false} ForLineFallsBack(f: FileClassification, line: int)
    requires forall o | o in f.overrides :: !(o.start <= line <= o.end)
    ensures f.ForLine(line) == f.fallback
    decreases |f.overrides|
  {
    if f.overrides != [] {
      assert f.overrides[0] in f.overrides;
      ForLineFallsBack(FileClassification(f.fallback, f.overrides[1..]), line);
    }
  }

  /** Accepted overrides classify every line the same in whatever order they are
      listed: as the one that covers it, or as the default. */
  lemma ForLineIgnoresOrder(f: FileClassification, g: FileClassification, line: int)
    requires f.fallback == g.fallback && SameElements(f.overrides, g.overrides) && PairwiseApart(f.overrides)
    ensures f.ForLine(line) == g.ForLine(line)
  {
    if exists o :: o in f.overrides && o.start <= line <= o.end {
      var o :| o in f.overrides && o.start <= line <= o.end;
      forall p | p in f.overrides && p != o ensures Apart(p, o) {
        var i :| 0 <= i < |f.overrides| && f.overrides[i] == p;
        var k :| 0 <= k < |f.overrides| && f.overrides[k] == o;
        assert if i < k then Apart(f.overrides[i], f.overrides[k]) else Apart(f.overrides[k], f.overrides[i]);
      }
      ForLineIs(f, line, o);
      ForLineIs(g, line, o);
    } else {
      ForLineFallsBack(f, line);
      ForLineFallsBack(g, line);
    }
  }

  // ----- compressing lines to ranges -----

  function Span(start: int, end: int): seq<int>
    requires start <= end + 1
  {
    seq(end - start + 1, i => start + i)
  }

  function Expand(ranges: seq<Range>): seq<int>
    requires forall r | r in ranges :: r.start <= r.end
  {
    if ranges == [] then []
    else Expand(ranges[..|ranges| - 1]) + Span(ranges[|ranges| - 1].start, ranges[|ranges| - 1].end)
  }

  predicate Continues(a: Range, b: Range) {
    a.end + 1 == b.start && a.classification == b.classification
  }

  /** The ranges list exactly these lines, each under its classification, and no
      two neighbours could be one. */
  ghost predicate Compresses(ranges: seq<Range>, lines: seq<int>, f: FileClassification) {
    && (forall r | r in ranges :: r.start <= r.end)
    && Expand(ranges) == lines
    && (forall r, line | r in ranges && r.start <= line <= r.end :: f.ForLine(line) == r.classification)
    && (forall i | 0 <= i < |ranges| - 1 :: !Continues(ranges[i], ranges[i + 1]))
  }

  lemma CompressesMore(ranges: seq<Range>, lines: seq<int>, f: FileClassification, r: Range)
    requires Compresses(ranges, lines, f) && r.start <= r.end
    requires forall line | r.start <= line <= r.end :: f.ForLine(line) == r.classification
    requires ranges != [] ==> !Continues(ranges[|ranges| - 1], r)
    ensures Compresses(ranges + [r], lines + Span(r.start, r.end), f)
  {
    assert (ranges + [r])[..|ranges|] == ranges;
  }

  method UncoveredRanges(missingLines: seq<int>, f: FileClassification) returns (ranges: seq<Range>)
    ensures Compresses(ranges, missingLines, f)
  {
    ranges := [];
    if missingLines == [] { return; }
    var start, previous := missingLines[0], missingLines[0];
    var classification := f.ForLine(start);
    PendingFirst(missingLines[0], f);
    assert missingLines[..1] == [missingLines[0]];
    for i := 1 to |missingLines|
      invariant Pending(ranges, Range(start, previous, classification), missingLines[..i], f)
    {
      var line := missingLines[i];
      var next := f.ForLine(line);
      assert missingLines[..i + 1] == missingLines[..i] + [line];
      if line == previous + 1 && next == classification {
        PendingGrows(ranges, Range(start, previous, classification), missingLines[..i], f);
        previous := line;
      } else {
        PendingNext(ranges, Range(start, previous, classification), missingLines[..i], line, f);
        ranges := ranges + [Range(start, previous, classification)];
        start, previous, classification := line, line, next;
      }
    }
    assert missingLines[..|missingLines|] == missingLines;
    PendingEnds(ranges, Range(start, previous, classification), missingLines, f);
    ranges := ranges + [Range(start, previous, classification)];
  }

  /** Ranges closed so far, and one still open. */
  ghost predicate Pending(ranges: seq<Range>, open: Range, lines: seq<int>, f: FileClassification) {
    && open.start <= open.end
    && (forall line | open.start <= line <= open.end :: f.ForLine(line) == open.classification)
    && (ranges != [] ==> !Continues(ranges[|ranges| - 1], open))
    && exists closed :: Compresses(ranges, closed, f) && lines == closed + Span(open.start, open.end)
  }

  lemma PendingGrows(ranges: seq<Range>, open: Range, lines: seq<int>, f: FileClassification)
    requires Pending(ranges, open, lines, f) && f.ForLine(open.end + 1) == open.classification
    ensures Pending(ranges, open.(end := open.end + 1), lines + [open.end + 1], f)
  {
    var closed :| Compresses(ranges, closed, f) && lines == closed + Span(open.start, open.end);
    assert Span(open.start, open.end + 1) == Span(open.start, open.end) + [open.end + 1];
    assert lines + [open.end + 1] == closed + Span(open.start, open.end + 1);
  }

  lemma PendingFirst(line: int, f: FileClassification)
    ensures Pending([], Range(line, line, f.ForLine(line)), [line], f)
  {
    assert Compresses([], [], f) && [line] == [] + Span(line, line);
  }

  lemma PendingNext(ranges: seq<Range>, open: Range, lines: seq<int>, line: int, f: FileClassification)
    requires Pending(ranges, open, lines, f) && !(line == open.end + 1 && f.ForLine(line) == open.classification)
    ensures Pending(ranges + [open], Range(line, line, f.ForLine(line)), lines + [line], f)
  {
    PendingEnds(ranges, open, lines, f);
    assert lines + [line] == lines + Span(line, line);
  }

  lemma PendingEnds(ranges: seq<Range>, open: Range, lines: seq<int>, f: FileClassification)
    requires Pending(ranges, open, lines, f)
    ensures Compresses(ranges + [open], lines, f)
  {
    var closed :| Compresses(ranges, closed, f) && lines == closed + Span(open.start, open.end);
    CompressesMore(ranges, closed, f, open);
  }

  /** The total length of the ranges. */
  function Length(ranges: seq<Range>): int {
    if ranges == [] then 0
    else Length(ranges[..|ranges| - 1]) + ranges[|ranges| - 1].end - ranges[|ranges| - 1].start + 1
  }

  lemma {:induction false} LengthCountsLines(ranges: seq<Range>)
    requires forall r | r in ranges :: r.start <= r.end
    ensures Length(ranges) == |Expand(ranges)|
  {
    if ranges != [] {
      var init := ranges[..|ranges| - 1];
      assert ranges == init + [ranges[|ranges| - 1]];
      LengthCountsLines(init);
    }
  }

  ghost predicate Increasing(lines: seq<int>) {
    forall a, b | 0 <= a < b < |lines| :: lines[a] < lines[b]
  }

  /** Ranges of increasing lines are increasing and disjoint. */
  lemma {:induction false} RangesIncrease(ranges: seq<Range>, lines: seq<int>, f: FileClassification)
    requires Compresses(ranges, lines, f) && Increasing(lines)
    ensures forall a, b | 0 <= a < b < |ranges| :: ranges[a].end < ranges[b].start
  {
    if ranges != [] {
      var init, last := ranges[..|ranges| - 1], ranges[|ranges| - 1];
      assert ranges == init + [last];
      var before := Expand(init);
      assert forall k | 0 <= k < |before| :: lines[k] == before[k];
      RangesIncrease(init, before, f);
      forall a | 0 <= a < |init| ensures init[a].end < last.start {
        EndIsListed(init, a);
        assert init[a].end in before && lines[|before|] == Span(last.start, last.end)[0] == last.start;
        var k :| 0 <= k < |before| && before[k] == init[a].end;
        assert lines[k] == before[k];
      }
    }
  }

  lemma {:induction false} EndIsListed(ranges: seq<Range>, a: nat)
    requires a < |ranges| && forall r | r in ranges :: r.start <= r.end
    ensures ranges[a].end in Expand(ranges)
  {
    var init, last := ranges[..|ranges| - 1], ranges[|ranges| - 1];
    assert ranges == init + [last];
    if a < |init| {
      EndIsListed(init, a);
    } else {
      var span := Span(last.start, last.end);
      assert span[last.end - last.start] == last.end;
    }
  }

  /** There is only one compression: the result is pinned down. */
  lemma {:induction false} CompressionUnique(x: seq<Range>, y: seq<Range>, lines: seq<int>, f: FileClassification)
    requires Compresses(x, lines, f) && Compresses(y, lines, f)
    ensures x == y
  {
    if lines == [] {
      RangesHoldLines(x);
      RangesHoldLines(y);
    } else {
      var a, b := x[|x| - 1], y[|y| - 1];
      LastReaches(x, y, lines, f);
      LastReaches(y, x, lines, f);
      var x', y' := x[..|x| - 1], y[..|y| - 1];
      assert x == x' + [a] && y == y' + [b];
      assert a.classification == f.ForLine(a.end) && b.classification == f.ForLine(b.end);
      assert Expand(x') == lines[..|lines| - (a.end - a.start + 1)] == Expand(y');
      CompressionUnique(x', y', Expand(x'), f);
    }
  }

  lemma {:induction false} RangesHoldLines(ranges: seq<Range>)
    requires forall r | r in ranges :: r.start <= r.end
    ensures |Expand(ranges)| >= |ranges|
  {
    if ranges != [] {
      var init, last := ranges[..|ranges| - 1], ranges[|ranges| - 1];
      assert ranges == init + [last];
      RangesHoldLines(init);
    }
  }

  /** The last range cannot be extended to the line before it. */
  lemma LastIsMaximal(x: seq<Range>, lines: seq<int>, f: FileClassification)
    requires Compresses(x, lines, f) && lines != []
    ensures x != [] && 1 <= Size(x[|x| - 1]) <= |lines| && x[|x| - 1].end == lines[|lines| - 1]
    ensures var m := Size(x[|x| - 1]);
            m < |lines| ==> lines[|lines| - m - 1] + 1 != x[|x| - 1].start
                            || f.ForLine(lines[|lines| - m - 1]) != x[|x| - 1].classification
  {
    assert x != [];
    var init, a := x[..|x| - 1], x[|x| - 1];
    assert a in x;
    var m := Size(a);
    assert lines[|lines| - 1] == Span(a.start, a.end)[m - 1];
    if m < |lines| {
      var before := Expand(init);
      assert lines[|lines| - m - 1] == before[|before| - 1];
      var c := init[|init| - 1];
      assert c in x && before[|before| - 1] == Span(c.start, c.end)[c.end - c.start] == c.end;
      assert !Continues(x[|x| - 2], x[|x| - 1]);
    }
  }

  function Size(r: Range): int { r.end - r.start + 1 }

  /** Inside the last range, lines follow each other under one classification. */
  lemma LastIsRun(y: seq<Range>, lines: seq<int>, f: FileClassification, k: nat)
    requires Compresses(y, lines, f) && y != [] && k < Size(y[|y| - 1])
    ensures k < |lines| && lines[|lines| - 1 - k] == y[|y| - 1].end - k
    ensures f.ForLine(y[|y| - 1].end - k) == y[|y| - 1].classification
  {
    var b := y[|y| - 1];
    assert b in y;
    assert lines[|lines| - 1 - k] == Span(b.start, b.end)[Size(b) - 1 - k];
  }

  /** The last range of one compression starts no later than that of another, and
      both end with the last line. */
  lemma LastReaches(x: seq<Range>, y: seq<Range>, lines: seq<int>, f: FileClassification)
    requires Compresses(x, lines, f) && Compresses(y, lines, f) && lines != []
    ensures x != [] && y != [] && x[|x| - 1].start <= y[|y| - 1].start && x[|x| - 1].end == y[|y| - 1].end
  {
    LastIsMaximal(x, lines, f);
    LastIsMaximal(y, lines, f);
    var m := Size(x[|x| - 1]);
    LastIsRun(x, lines, f, 0);
    LastIsRun(y, lines, f, 0);
    if m < Size(y[|y| - 1]) { LastIsRun(y, lines, f, m); }
  }
}
