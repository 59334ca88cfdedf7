/** scripts/coverage_debt.py: the tracker comment, printed and parsed. */
module TrackerComment {
  import opened Text
  import opened Markers
  import opened TrackerHistory
  import opened StateJson
  import opened TrackerRows

  const MAX_COMMENT_BYTES := 64000

  datatype TrackerError = InvalidRepository | InvalidMeasurement | MultipleMarkers | InvalidMarkers
                        | InvalidJson | InvalidState | TooLarge | RequestFailed

  /** The fixed parts of a comment: its markers, the heading of a state, the summary
      of the rows of uncovered files, and the encoding of the state. */
  datatype Layout = Layout(report: string, start: string, end: string, heading: (State, string) -> string,
                           summary: seq<FileRow> -> string, encode: State -> string)

  /** A report: its measurement, and its uncovered files. */
  datatype TrackedReport = TrackedReport(measurement: Measurement, rows: seq<FileRow>)

  function Body(layout: Layout, rows: seq<FileRow>, s: State, repository: string): string {
    Pieces(layout.report, layout.heading(s, repository), layout.summary(rows), layout.start, layout.encode(s), layout.end)
  }

  function Utf8Bytes(s: string): nat {
    if s == "" then 0
    else
      var code := s[|s| - 1] as int;
      Utf8Bytes(s[..|s| - 1]) + if code < 0x80 then 1 else if code < 0x800 then 2 else if code < 0x1_0000 then 3 else 4
  }

  function Render(layout: Layout, report: TrackedReport, s: State, repository: string): Result<string, TrackerError> {
    if !ValidRepository(repository) then Failure(InvalidRepository)
    else
      var body := Body(layout, report.rows, s, repository);
      if Utf8Bytes(body) > MAX_COMMENT_BYTES then Failure(TooLarge) else Success(body)
  }

  /** The text in front of the first end marker, or all of it. */
  function FrontOf(after: string, end: string): string
    requires end != ""
  {
    match Split(after, end) case None => after case Some(inner) => inner.before
  }

  /** The text between the markers, when each is counted once. */
  function Between(body: string, start: string, end: string): Option<string>
    requires start != "" && end != ""
  {
    if Count(body, start) != 1 || Count(body, end) != 1 then None
    else
      match Split(body, start)
      case None => None
      case Some(parts) =>
        Some(FrontOf(parts.after, end))
  }

  function Parse(layout: Layout, body: string, loads: string -> Option<Decoded>): Result<State, TrackerError>
    requires layout.start != "" && layout.end != ""
  {
    match Between(body, layout.start, layout.end)
    case None => Failure(InvalidMarkers)
    case Some(text) => ParseState(loads(text))
  }

  function ParseState(decoded: Option<Decoded>): Result<State, TrackerError> {
    match decoded
    case None => Failure(InvalidJson)
    case Some(d) =>
      if d.version == SCHEMA_VERSION && ValidState(d.state) then Success(d.state) else Failure(InvalidState)
  }

  /** The text behind the first start marker, up to the first end marker behind it. */
  ghost predicate TextBetween(body: string, start: string, end: string, text: string) {
    exists i: nat :: FirstAt(body, start, i) && UpTo(body[i + |start|..], end, text)
  }

  ghost predicate UpTo(after: string, end: string, text: string) {
    (!Contains(after, end) && text == after) || exists j: nat :: FirstAt(after, end, j) && text == after[..j]
  }

  lemma FirstUnique(text: string, word: string)
    ensures forall j: nat, k: nat | FirstAt(text, word, j) && FirstAt(text, word, k) :: j == k
  {
    forall j: nat, k: nat | FirstAt(text, word, j) && FirstAt(text, word, k) ensures j == k {}
  }

  lemma FirstIsContained(text: string, word: string)
    ensures forall j: nat | FirstAt(text, word, j) :: Contains(text, word)
  {
    forall j: nat | FirstAt(text, word, j) ensures Contains(text, word) { assert OccursAt(text, j, word); }
  }

  lemma FrontMeans(after: string, end: string)
    requires end != ""
    ensures forall text :: UpTo(after, end, text) <==> text == FrontOf(after, end)
  {
    SplitMeans(after, end);
    FirstUnique(after, end);
    FirstIsContained(after, end);
    if Contains(after, end) {
      var j: nat :| FirstAt(after, end, j) && Split(after, end) == Some(Parts(after[..j], after[j + |end|..]));
    }
  }

  lemma BehindStart(body: string, start: string, end: string, i: nat)
    requires start != "" && end != "" && FirstAt(body, start, i)
    ensures forall text :: TextBetween(body, start, end, text) <==> text == FrontOf(body[i + |start|..], end)
  {
    FirstUnique(body, start);
    FrontMeans(body[i + |start|..], end);
    assert UpTo(body[i + |start|..], end, FrontOf(body[i + |start|..], end));
  }

  lemma BetweenMeans(body: string, start: string, end: string)
    requires start != "" && end != ""
    ensures Between(body, start, end).Some? <==> Count(body, start) == 1 && Count(body, end) == 1
    ensures forall text :: Between(body, start, end) == Some(text) <==>
              Count(body, start) == 1 && Count(body, end) == 1 && TextBetween(body, start, end, text)
  {
    SplitMeans(body, start);
    CountZero(body, start);
    if Split(body, start).Some? {
      var i: nat :| FirstAt(body, start, i) && Split(body, start) == Some(Parts(body[..i], body[i + |start|..]));
      BehindStart(body, start, end, i);
    }
  }

  /** A state is parsed exactly from the one text between the markers, if that decodes to
      a valid state of the program's version. */
  lemma ParseExactly(layout: Layout, body: string, loads: string -> Option<Decoded>)
    requires layout.start != "" && layout.end != ""
    ensures Parse(layout, body, loads) == Failure(InvalidMarkers) <==> Count(body, layout.start) != 1 || Count(body, layout.end) != 1
    ensures forall text | Count(body, layout.start) == 1 && Count(body, layout.end) == 1 && TextBetween(body, layout.start, layout.end, text) ::
              && (Parse(layout, body, loads) == Failure(InvalidJson) <==> loads(text) == None)
              && (forall s :: Parse(layout, body, loads) == Success(s) <==> loads(text) == Some(Decoded(1, s)) && ValidState(s))
              && (Parse(layout, body, loads).Failure? ==> Parse(layout, body, loads).error in {InvalidJson, InvalidState})
  {
    BetweenMeans(body, layout.start, layout.end);
  }

  // ----- the size of the comment -----

  /** The bytes of a character in UTF-8, section 3 of RFC 3629. */
  function Utf8(c: char): seq<int> {
    var n := c as int;
    if n < 0x80 then [n]
    else if n < 0x800 then [0xC0 + n / 64, 0x80 + n % 64]
    else if n < 0x1_0000 then [0xE0 + n / 4096, 0x80 + n / 64 % 64, 0x80 + n % 64]
    else [0xF0 + n / 262144, 0x80 + n / 4096 % 64, 0x80 + n / 64 % 64, 0x80 + n % 64]
  }

  function Utf8Of(s: string): seq<int> {
    if s == "" then [] else Utf8Of(s[..|s| - 1]) + Utf8(s[|s| - 1])
  }

  /** The size is that of the encoded text. */
  lemma {:induction false} Utf8BytesMeans(s: string)
    ensures Utf8Bytes(s) == |Utf8Of(s)|
  {
    if s != "" { Utf8BytesMeans(s[..|s| - 1]); }
  }

  /** Rendering fails exactly for an invalid repository, and for a comment of more than
      64000 bytes; otherwise it gives the comment. */
  lemma RenderMeans(layout: Layout, report: TrackedReport, s: State, repository: string)
    ensures var r, body := Render(layout, report, s, repository), Body(layout, report.rows, s, repository);
            && (r == Failure(InvalidRepository) <==> !ValidRepository(repository))
            && (r == Failure(TooLarge) <==> ValidRepository(repository) && |Utf8Of(body)| > 64000)
            && (r == Success(body) <==> ValidRepository(repository) && |Utf8Of(body)| <= 64000)
  {
    Utf8BytesMeans(Body(layout, report.rows, s, repository));
  }

  /** The bytes of a character determine it: their payloads, six bits each behind the
      first, spell its code point. */
  lemma Utf8Reads(c: char)
    ensures match |Utf8(c)|
            case 1 => Utf8(c)[0] == c as int
            case 2 => (Utf8(c)[0] - 0xC0) * 64 + (Utf8(c)[1] - 0x80) == c as int
            case 3 => ((Utf8(c)[0] - 0xE0) * 64 + (Utf8(c)[1] - 0x80)) * 64 + (Utf8(c)[2] - 0x80) == c as int
            case _ => (((Utf8(c)[0] - 0xF0) * 64 + (Utf8(c)[1] - 0x80)) * 64 + (Utf8(c)[2] - 0x80)) * 64 + (Utf8(c)[3] - 0x80) == c as int
  {
    var n := c as int;
    assert n / 4096 == n / 64 / 64 && n / 262144 == n / 64 / 64 / 64;
  }

  // ----- counting a marker in the comment -----

  /** The one `<` of the text belongs to an occurrence of the word. */
  function Hit(text: string, p: int, word: string, o: nat): nat {
    if p >= o && OccursAt(text, p - o, word) then 1 else 0
  }

  lemma CountHit(text: string, p: int, word: string, o: nat)
    requires Only(text, '<', p) && Only(word, '<', o)
    ensures Count(text, word) == Hit(text, p, word, o)
  {
    CountOneAngle(text, p, word, o);
  }

  /** A marker: one `<` at `o`, at most one newline at `k`, and neighbours of the
      newline that the pieces of the comment do not offer. */
  predicate Marker(word: string, o: nat, k: int) {
    && Only(word, '<', o) && Only(word, '\n', k)
    && (0 <= k < |word| - 1 ==> word[k + 1] != '#')
    && (k > 0 ==> word[k - 1] != '|' && word[k - 1] != '}')
  }

  /** In a comment cut into opening, summary, state and end, no marker lies across
      a cut, so its occurrences add up. */
  lemma CountInPieces(opening: string, detail: string, coded: string, ending: string, word: string, o: nat, k: int)
    requires Marker(word, o, k)
    requires Only(opening, '<', 0) && Last(opening) == '\n'
    requires detail != "" && detail[0] == '#' && Last(detail) == '|'
    requires coded != "" && coded[0] == '\n' && Only(coded, '<', 2) && Last(coded) == '}'
    requires ending != "" && ending[0] == '\n' && Only(ending, '<', 4)
    ensures Count(opening + (detail + (coded + ending)), word)
         == Hit(opening, 0, word, o) + Count(detail, word) + Hit(coded, 2, word, o) + Hit(ending, 4, word, o)
  {
    CountState(coded, ending, word, o, k);
    CountCut(detail, coded + ending, word, o, k);
    CountInFront(opening, detail + (coded + ending), word, o, k);
  }

  /** The cut in front of the end. */
  lemma CountState(coded: string, ending: string, word: string, o: nat, k: int)
    requires Marker(word, o, k)
    requires coded != "" && Only(coded, '<', 2) && Last(coded) == '}'
    requires ending != "" && ending[0] == '\n' && Only(ending, '<', 4)
    ensures Count(coded + ending, word) == Hit(coded, 2, word, o) + Hit(ending, 4, word, o)
  {
    CountCut(coded, ending, word, o, k);
    CountHit(coded, 2, word, o);
    CountHit(ending, 4, word, o);
  }

  /** A cut in front of a newline. */
  lemma CountCut(front: string, more: string, word: string, o: nat, k: int)
    requires Marker(word, o, k)
    requires front != "" && (Last(front) == '|' || Last(front) == '}') && more != "" && more[0] == '\n'
    ensures Count(front + more, word) == Count(front, word) + Count(more, word)
  {
    CutBeforeNewline(front, more, word, k);
    CountSplit(front, more, word);
  }

  /** The cut behind the opening. */
  lemma CountInFront(opening: string, more: string, word: string, o: nat, k: int)
    requires Marker(word, o, k)
    requires Only(opening, '<', 0) && Last(opening) == '\n' && more != "" && more[0] == '#'
    ensures Count(opening + more, word) == Hit(opening, 0, word, o) + Count(more, word)
  {
    CutAfterNewline(opening, more, word, k);
    CountSplit(opening, more, word);
    CountHit(opening, 0, word, o);
  }

  lemma PiecesShape(report: string, head: string, start: string, code: string, end: string)
    requires Marker(report, 0, -1) && Marker(start, 0, |start| - 1) && Marker(end, 4, 0)
    requires Flat(head) && head != "" && Last(head) == '\n' && Flat(code) && code != "" && Last(code) == '}'
    ensures Only(report + head, '<', 0) && Last(report + head) == '\n'
    ensures Only("\n\n" + start + code, '<', 2) && Last("\n\n" + start + code) == '}'
    ensures Only(end + "\n", '<', 4)
  {
  }

  lemma OnlyAppend(a: string, b: string, c: char, p: int, q: int)
    requires Only(a, c, p) && Only(b, c, q) && (p == -1 || q == -1)
    ensures Only(a + b, c, if q == -1 then p else |a| + q)
  {
    forall j | 0 <= j < |a + b| ensures (a + b)[j] == c <==> j == if q == -1 then p else |a| + q {
      if j >= |a| { assert (a + b)[j] == b[j - |a|]; }
    }
  }

  lemma HitsOf(report: string, head: string, start: string, code: string, end: string, n: nat)
    requires n < |report| && n < |start| && report[n] != start[n] && |end| > 9 && |start| > 5 && |report| > 5
    requires end[9] != start[5] && end[9] != report[5]
    ensures Hit(report + head, 0, report, 0) == 1 && Hit(report + head, 0, start, 0) == 0
    ensures Hit("\n\n" + start + code, 2, start, 0) == 1 && Hit("\n\n" + start + code, 2, report, 0) == 0
    ensures Hit(end + "\n", 4, end, 4) == 1 && Hit(end + "\n", 4, start, 0) == 0 && Hit(end + "\n", 4, report, 0) == 0
  {
    assert (report + head)[0..|report|] == report;
    assert ("\n\n" + start + code)[2..2 + |start|] == start;
    assert (end + "\n")[0..|end|] == end;
    OccursChar(report + head, 0, start, n);
    OccursChar("\n\n" + start + code, 2, report, n);
    OccursChar(end + "\n", 4, start, 5);
    OccursChar(end + "\n", 4, report, 5);
  }

  function Pieces(report: string, head: string, detail: string, start: string, code: string, end: string): string {
    (report + head) + (detail + (("\n\n" + start + code) + (end + "\n")))
  }

  predicate MarkersFit(report: string, start: string, end: string) {
    && Marker(report, 0, -1) && Marker(start, 0, |start| - 1) && Marker(end, 4, 0)
    && |end| > 9 && |start| > 5 && |report| > 5 && end[9] != start[5] && end[9] != report[5]
    && exists n | 0 <= n < |start| && n < |report| :: report[n] != start[n]
  }

  predicate HeadingFits(head: string) { Flat(head) && head != "" && Last(head) == '\n' }

  predicate SummaryFits(detail: string) { detail != "" && detail[0] == '#' && Last(detail) == '|' }

  predicate EncodingFits(code: string) { Flat(code) && code != "" && Last(code) == '}' }

  predicate Assembled(report: string, head: string, detail: string, start: string, code: string, end: string) {
    MarkersFit(report, start, end) && HeadingFits(head) && SummaryFits(detail) && EncodingFits(code)
  }

  lemma PieceCounts(report: string, head: string, detail: string, start: string, code: string, end: string)
    requires Assembled(report, head, detail, start, code, end)
    ensures var body := Pieces(report, head, detail, start, code, end);
            && Count(body, report) == 1 + Count(detail, report)
            && Count(body, start) == 1 + Count(detail, start)
            && Count(body, end) == 1 + Count(detail, end)
  {
    var n :| 0 <= n < |start| && n < |report| && report[n] != start[n];
    PiecesShape(report, head, start, code, end);
    HitsOf(report, head, start, code, end, n);
    CountInPieces(report + head, detail, "\n\n" + start + code, end + "\n", report, 0, -1);
    CountInPieces(report + head, detail, "\n\n" + start + code, end + "\n", start, 0, |start| - 1);
    CountInPieces(report + head, detail, "\n\n" + start + code, end + "\n", end, 4, 0);
  }

  lemma TailSplits(code: string, end: string)
    requires Marker(end, 4, 0) && Flat(code) && code != "" && Last(code) == '}'
    ensures Split(code + (end + "\n"), end) == Some(Parts(code, "\n"))
  {
    var tail := code + (end + "\n");
    TailHasOne(code, end);
    assert tail[|code|..|code| + |end|] == end;
    SplitOnly(tail, |code|, end);
    assert tail[..|code|] == code && tail[|code| + |end|..] == "\n";
  }

  lemma TailHasOne(code: string, end: string)
    requires Marker(end, 4, 0) && Flat(code) && code != "" && Last(code) == '}'
    ensures Count(code + (end + "\n"), end) == 1
  {
    CountCut(code, end + "\n", end, 4, 0);
    CountOneAngle(code, -1, end, 4);
    assert (end + "\n")[0..|end|] == end;
    EndStands(end);
    CountOneAngle(end + "\n", 4, end, 4);
  }

  lemma EndStands(end: string)
    requires Marker(end, 4, 0)
    ensures Only(end + "\n", '<', 4)
  {
  }

  lemma StartStands(report: string, head: string, detail: string, start: string, code: string, end: string)
    ensures var front := |report| + |head| + |detail| + 2;
            var body := Pieces(report, head, detail, start, code, end);
            OccursAt(body, front, start) && body[front + |start|..] == code + (end + "\n")
  {
    var front, tail := report + head + detail + "\n\n", code + (end + "\n");
    assert Pieces(report, head, detail, start, code, end) == front + start + tail;
    var body := front + start + tail;
    assert body[|front|..|front| + |start|] == start && body[|front| + |start|..] == tail;
  }

  lemma BetweenIn(body: string, front: nat, start: string, code: string, end: string)
    requires OccursAt(body, front, start) && body[front + |start|..] == code + (end + "\n")
    requires Marker(start, 0, |start| - 1) && start != "" && Marker(end, 4, 0) && EncodingFits(code)
    ensures Between(body, start, end) == if Count(body, start) == 1 && Count(body, end) == 1 then Some(code) else None
  {
    if Count(body, start) == 1 { SplitOnly(body, front, start); }
    TailSplits(code, end);
  }

  lemma BetweenMarkers(report: string, head: string, detail: string, start: string, code: string, end: string)
    requires Assembled(report, head, detail, start, code, end)
    ensures Between(Pieces(report, head, detail, start, code, end), start, end)
         == if Contains(detail, start) || Contains(detail, end) then None else Some(code)
  {
    PieceCounts(report, head, detail, start, code, end);
    CountZero(detail, start);
    CountZero(detail, end);
    BetweenPieces(report, head, detail, start, code, end);
  }

  lemma BetweenPieces(report: string, head: string, detail: string, start: string, code: string, end: string)
    requires Marker(start, 0, |start| - 1) && start != "" && Marker(end, 4, 0) && EncodingFits(code)
    ensures var body := Pieces(report, head, detail, start, code, end);
            Between(body, start, end) == if Count(body, start) == 1 && Count(body, end) == 1 then Some(code) else None
  {
    StartStands(report, head, detail, start, code, end);
    BetweenIn(Pieces(report, head, detail, start, code, end), |report| + |head| + |detail| + 2, start, code, end);
  }

  // ----- the round trip -----

  /** The markers differ, and a heading, summary or encoding has no marker of its own
      and does not complete one. */
  ghost predicate WellFormed(layout: Layout) {
    && MarkersFit(layout.report, layout.start, layout.end)
    && (forall s, repository | ValidState(s) && ValidRepository(repository) :: HeadingFits(layout.heading(s, repository)))
    && (forall rows :: SummaryFits(layout.summary(rows)))
    && (forall s | ValidState(s) :: EncodingFits(layout.encode(s)))
  }

  /** The decoder undoes the encoder on valid states. */
  ghost predicate Inverts(layout: Layout, loads: string -> Option<Decoded>) {
    forall s | ValidState(s) :: loads(layout.encode(s)) == Some(Decoded(SCHEMA_VERSION, s))
  }

  /** The rendered summary contains neither state marker. */
  predicate Clean(layout: Layout, rows: seq<FileRow>) {
    !Contains(layout.summary(rows), layout.start) && !Contains(layout.summary(rows), layout.end)
  }

  /** A rendered comment holds the report marker once, plus its occurrences in the
      summary. */
  lemma ReportMarkerOnce(layout: Layout, rows: seq<FileRow>, s: State, repository: string)
    requires WellFormed(layout) && ValidState(s) && ValidRepository(repository)
    ensures Count(Body(layout, rows, s, repository), layout.report) == 1 + Count(layout.summary(rows), layout.report)
  {
    PieceCounts(layout.report, layout.heading(s, repository), layout.summary(rows), layout.start, layout.encode(s), layout.end);
  }

  /** Parsing a rendered comment returns the rendered state exactly when the summary
      contains neither state marker; otherwise it reports invalid markers. */
  lemma RoundTrip(layout: Layout, report: TrackedReport, s: State, repository: string, loads: string -> Option<Decoded>)
    requires WellFormed(layout) && Inverts(layout, loads) && ValidState(s)
    requires Render(layout, report, s, repository).Success?
    ensures Parse(layout, Render(layout, report, s, repository).value, loads)
         == if Clean(layout, report.rows) then Success(s) else Failure(InvalidMarkers)
  {
    BetweenMarkers(layout.report, layout.heading(s, repository), layout.summary(report.rows), layout.start, layout.encode(s), layout.end);
  }
}
