/** No configured secret survives redaction. The redacted text is tracked cell by
    cell: a cell is a character kept from a position of the raw text or a
    character of a marker. */
module RedactionSafety {
  import opened Basics
  import opened Text
  import opened RedactionSpec

  datatype Cell = Kept(pos: nat, ch: char) | Mark(index: nat, ch: char)

  function Chars(cells: seq<Cell>): string {
    seq(|cells|, i requires 0 <= i < |cells| => cells[i].ch)
  }

  function Raw(text: string, start: nat): seq<Cell>
    requires start <= |text|
  {
    seq(|text| - start, i requires 0 <= i < |text| - start => Kept(start + i, text[start + i]))
  }

  function Marks(mark: string): seq<Cell> {
    seq(|mark|, i requires 0 <= i < |mark| => Mark(i, mark[i]))
  }

  function ReplaceCells(cells: seq<Cell>, word: string, mark: string): seq<Cell>
    requires word != ""
  {
    if cells == [] then []
    else if OccursAt(Chars(cells), 0, word) then Marks(mark) + ReplaceCells(cells[|word|..], word, mark)
    else [cells[0]] + ReplaceCells(cells[1..], word, mark)
  }

  function OneShotCells(cells: seq<Cell>, secrets: seq<string>, mark: string): seq<Cell>
    requires AllNonEmpty(secrets)
  {
    if secrets == [] then cells
    else ReplaceCells(OneShotCells(cells, secrets[..|secrets| - 1], mark), secrets[|secrets| - 1], mark)
  }

  /** The streaming scan of `rest`, which starts at position `start` of the raw
      text, completed by `tail`. */
  function ScanCells(rest: string, start: nat, secrets: seq<string>, mark: string, tail: seq<Cell>): seq<Cell>
    requires AllNonEmpty(secrets) && secrets != []
  {
    if |rest| < |secrets[0]| then tail
    else var n := StepSize(rest, secrets);
      StepCells(rest, start, secrets, mark) + ScanCells(rest[n..], start + n, secrets, mark, tail)
  }

  function StepCells(rest: string, start: nat, secrets: seq<string>, mark: string): (r: seq<Cell>)
    requires rest != ""
    ensures |r| == |StepOutput(rest, secrets, mark)|
  {
    if FirstMatch(rest, 0, secrets).None? then [Kept(start, rest[0])] else Marks(mark)
  }

  /** The streamed redaction of `text` with its provenance. */
  function StreamedCells(text: string, secrets: seq<string>, mark: string): seq<Cell>
    requires AllNonEmpty(secrets)
  {
    if secrets == [] then Raw(text, 0)
    else ScanCells(text, 0, secrets, mark, OneShotCells(Raw(text, ScanStop(text, secrets)), secrets, mark))
  }

  /** The cells spell what the redactor yields. */
  lemma {:induction false} ReplaceCellsSpells(cells: seq<Cell>, word: string, mark: string)
    requires word != ""
    ensures Chars(ReplaceCells(cells, word, mark)) == Replace(Chars(cells), word, mark)
  {
    if cells != [] {
      var n := HeadSize(cells, word);
      var more := ReplaceCells(cells[n..], word, mark);
      CharsDrop(cells, n);
      ReplaceCellsSpells(cells[n..], word, mark);
      if OccursAt(Chars(cells), 0, word) {
        CharsJoin(Marks(mark), more);
        MarksSpell(mark);
      } else {
        CharsJoin([cells[0]], more);
        assert Chars([cells[0]]) == [Chars(cells)[0]];
      }
    }
  }

  lemma CharsDrop(cells: seq<Cell>, n: nat)
    requires n <= |cells|
    ensures Chars(cells)[n..] == Chars(cells[n..])
  {
  }

  lemma MarksSpell(mark: string)
    ensures Chars(Marks(mark)) == mark
  {
  }

  lemma {:induction false} OneShotCellsSpell(cells: seq<Cell>, secrets: seq<string>, mark: string)
    requires AllNonEmpty(secrets)
    ensures Chars(OneShotCells(cells, secrets, mark)) == OneShot(Chars(cells), secrets, mark)
  {
    if secrets != [] {
      var init := secrets[..|secrets| - 1];
      OneShotCellsSpell(cells, init, mark);
      ReplaceCellsSpells(OneShotCells(cells, init, mark), secrets[|secrets| - 1], mark);
    }
  }

  lemma CharsJoin(a: seq<Cell>, b: seq<Cell>)
    ensures Chars(a + b) == Chars(a) + Chars(b)
  {
  }

  /** Folded until StreamsTo names the output meant. */
  ghost predicate Spells(cells: seq<Cell>, rest: string, secrets: seq<string>, mark: string)
    requires AllNonEmpty(secrets)
  {
    forall output, stop: nat | StreamsTo(rest, secrets, mark, output, stop) :: Chars(cells) == output
  }

  ghost predicate TailOf(rest: string, secrets: seq<string>, tail: string)
    requires AllNonEmpty(secrets)
  {
    tail == rest[ScanStop(rest, secrets)..]
  }

  lemma {:induction false} ScanCellsSpell(rest: string, start: nat, secrets: seq<string>, mark: string,
                                          tail: seq<Cell>, tailText: string)
    requires AllNonEmpty(secrets) && secrets != []
    requires TailOf(rest, secrets, tailText) && Chars(tail) == OneShot(tailText, secrets, mark)
    ensures Spells(ScanCells(rest, start, secrets, mark, tail), rest, secrets, mark)
    decreases |rest|
  {
    if |rest| >= |secrets[0]| {
      var n := StepSize(rest, secrets);
      TailOfStep(rest, secrets, tailText);
      ScanCellsSpell(rest[n..], start + n, secrets, mark, tail, tailText);
      StepSpells(rest, start, secrets, mark, ScanCells(rest[n..], start + n, secrets, mark, tail));
    }
  }

  lemma TailOfStep(rest: string, secrets: seq<string>, tail: string)
    requires AllNonEmpty(secrets) && secrets != [] && |rest| >= |secrets[0]|
    requires TailOf(rest, secrets, tail)
    ensures TailOf(rest[StepSize(rest, secrets)..], secrets, tail)
  {
  }

  lemma StepSpells(rest: string, start: nat, secrets: seq<string>, mark: string, more: seq<Cell>)
    requires AllNonEmpty(secrets) && secrets != [] && |rest| >= |secrets[0]|
    requires Spells(more, rest[StepSize(rest, secrets)..], secrets, mark)
    ensures Spells(StepCells(rest, start, secrets, mark) + more, rest, secrets, mark)
  {
    var next := rest[StepSize(rest, secrets)..];
    assert StreamsTo(next, secrets, mark, Streamed(next, secrets, mark), ScanStop(next, secrets));
    CharsJoin(StepCells(rest, start, secrets, mark), more);
    assert Chars(StepCells(rest, start, secrets, mark)) == StepOutput(rest, secrets, mark);
  }

  lemma StreamedCellsSpell(text: string, secrets: seq<string>, mark: string)
    requires AllNonEmpty(secrets)
    ensures Chars(StreamedCells(text, secrets, mark)) == Streamed(text, secrets, mark)
  {
    if secrets == [] {
      assert Chars(Raw(text, 0)) == text;
    } else {
      var stop := ScanStop(text, secrets);
      assert Chars(Raw(text, stop)) == text[stop..];
      OneShotCellsSpell(Raw(text, stop), secrets, mark);
      ScanCellsSpell(text, 0, secrets, mark, OneShotCells(Raw(text, stop), secrets, mark), text[stop..]);
      assert StreamsTo(text, secrets, mark, Streamed(text, secrets, mark), stop);
    }
  }

  /** The character at position `q` of the text is still there. */
  ghost predicate Has(cells: seq<Cell>, q: nat) {
    exists i :: 0 <= i < |cells| && cells[i].Kept? && cells[i].pos == q
  }

  /** Kept cells come in text order, and two of them are neighbours exactly when
      their positions are: whatever was removed left a marker behind. */
  ghost predicate Ordered(cells: seq<Cell>) {
    forall i, k | 0 <= i < k < |cells| && cells[i].Kept? && cells[k].Kept? ::
      cells[i].pos < cells[k].pos && (k == i + 1 <==> cells[k].pos == cells[i].pos + 1)
  }

  ghost predicate Faithful(cells: seq<Cell>, text: string, mark: string) {
    forall c | c in cells ::
      if c.Kept? then c.pos < |text| && c.ch == text[c.pos] else c.index < |mark| && c.ch == mark[c.index]
  }

  lemma HasSplit(a: seq<Cell>, b: seq<Cell>, q: nat)
    ensures Has(a + b, q) <==> Has(a, q) || Has(b, q)
  {
    if Has(a, q) {
      var i :| 0 <= i < |a| && a[i].Kept? && a[i].pos == q;
      assert (a + b)[i].Kept?;
    }
    if Has(b, q) {
      var i :| 0 <= i < |b| && b[i].Kept? && b[i].pos == q;
      assert (a + b)[|a| + i].Kept?;
    }
  }

  lemma MarksOrdered(mark: string, more: seq<Cell>)
    requires Ordered(more)
    ensures Ordered(Marks(mark) + more)
    ensures forall q: nat :: Has(Marks(mark) + more, q) <==> Has(more, q)
  {
    var out := Marks(mark) + more;
    forall q: nat ensures Has(out, q) <==> Has(more, q) {
      HasSplit(Marks(mark), more, q);
    }
    forall i, k | 0 <= i < k < |out| && out[i].Kept? && out[k].Kept?
      ensures out[i].pos < out[k].pos && (k == i + 1 <==> out[k].pos == out[i].pos + 1)
    {
      assert more[i - |mark|].Kept? && more[k - |mark|].Kept?;
    }
  }

  /** A kept cell may precede later cells, provided they start with the next
      character exactly when that is still there. */
  lemma PrependOrdered(c: Cell, more: seq<Cell>)
    requires Ordered(more)
    requires c.Kept? ==>
               && (forall q: nat | Has(more, q) :: c.pos < q)
               && (more != [] && more[0].Kept? ==> more[0].pos == c.pos + 1)
               && (Has(more, c.pos + 1) ==> more[0].Kept?)
    ensures Ordered([c] + more)
    ensures forall q: nat :: Has([c] + more, q) <==> Has(more, q) || (c.Kept? && c.pos == q)
  {
    var out := [c] + more;
    forall q: nat ensures Has(out, q) <==> Has(more, q) || (c.Kept? && c.pos == q) {
      HasSplit([c], more, q);
      assert Has([c], q) <==> c.Kept? && c.pos == q by { assert [c][0] == c; }
    }
    forall k | 0 < k < |out| && c.Kept? && out[k].Kept?
      ensures c.pos < out[k].pos && (k == 1 <==> out[k].pos == c.pos + 1)
    {
      assert more[k - 1].Kept? && Has(more, out[k].pos);
      assert more[0].Kept? && k > 1 ==> more[0].pos < more[k - 1].pos;
    }
    forall i, k | 0 < i < k < |out| && out[i].Kept? && out[k].Kept?
      ensures out[i].pos < out[k].pos && (k == i + 1 <==> out[k].pos == out[i].pos + 1)
    {
      assert more[i - 1].Kept? && more[k - 1].Kept?;
    }
  }

  /** `more` follows from `tail` by replacing: its first cell is the first of
      `tail` or a marker in its stead. */
  ghost predicate Replaced(tail: seq<Cell>, more: seq<Cell>) {
    && (forall q: nat | Has(more, q) :: Has(tail, q))
    && (more == [] <==> tail == [])
    && (tail != [] ==> more[0] == tail[0] || (more[0].Mark? && (tail[0].Kept? ==> !Has(more, tail[0].pos))))
  }

  lemma OrderedTail(cells: seq<Cell>, n: nat, q: nat)
    requires Ordered(cells) && n <= |cells|
    ensures Ordered(cells[n..])
    ensures Has(cells[n..], q) ==> Has(cells, q) && forall i | 0 <= i < n && cells[i].Kept? :: cells[i].pos < q
    ensures Has(cells[n..], q) && 0 < n && cells[n - 1].Kept? && q == cells[n - 1].pos + 1 ==>
              cells[n].Kept? && cells[n].pos == q
  {
    var tail := cells[n..];
    forall i, k | 0 <= i < k < |tail| && tail[i].Kept? && tail[k].Kept?
      ensures tail[i].pos < tail[k].pos && (k == i + 1 <==> tail[k].pos == tail[i].pos + 1)
    {
      assert cells[n + i].Kept? && cells[n + k].Kept?;
    }
    if Has(tail, q) {
      var k :| 0 <= k < |tail| && tail[k].Kept? && tail[k].pos == q;
      assert cells[n + k].Kept?;
    }
  }

  lemma {:induction false} ReplaceKeeps(cells: seq<Cell>, word: string, mark: string, text: string)
    requires word != "" && mark != ""
    requires Ordered(cells) && Faithful(cells, text, mark)
    ensures var out := ReplaceCells(cells, word, mark);
            Ordered(out) && Faithful(out, text, mark) && Replaced(cells, out)
  {
    if cells != [] {
      var n := if OccursAt(Chars(cells), 0, word) then |word| else 1;
      var tail, more := cells[n..], ReplaceCells(cells[n..], word, mark);
      forall q: nat
        ensures Ordered(tail)
        ensures Has(tail, q) ==> Has(cells, q) && forall i | 0 <= i < n && cells[i].Kept? :: cells[i].pos < q
      {
        OrderedTail(cells, n, q);
      }
      ReplaceKeeps(tail, word, mark, text);
      if OccursAt(Chars(cells), 0, word) { MarksOrdered(mark, more); } else { MissKeeps(cells, more, text, mark); }
    }
  }

  /** A cell that stays, in front of what replacing behind it gave. */
  lemma MissKeeps(cells: seq<Cell>, more: seq<Cell>, text: string, mark: string)
    requires cells != [] && Ordered(cells) && Faithful(cells, text, mark)
    requires Ordered(more) && Faithful(more, text, mark) && Replaced(cells[1..], more)
    ensures var out := [cells[0]] + more;
            Ordered(out) && Faithful(out, text, mark) && Replaced(cells, out)
  {
    var tail := cells[1..];
    forall q: nat | Has(tail, q) ensures Has(cells, q) && (cells[0].Kept? ==> cells[0].pos < q) { OrderedTail(cells, 1, q); }
    if cells[0].Kept? {
      OrderedTail(cells, 1, cells[0].pos + 1);
      if tail != [] && tail[0].Kept? { assert cells[1].Kept?; }
      assert Has(cells, cells[0].pos);
    }
    PrependOrdered(cells[0], more);
  }

  /** All of `length` characters from `start` on are still there. */
  ghost predicate Survives(start: nat, length: nat, cells: seq<Cell>) {
    forall q | start <= q < start + length :: Has(cells, q)
  }

  /** The cells from index `j` on are the characters from position `p` on. */
  ghost predicate RunAt(cells: seq<Cell>, j: nat, p: nat, length: nat) {
    && j + length <= |cells|
    && forall k | j <= k < j + length :: cells[k].Kept? && cells[k].pos == p + k - j
  }

  /** A surviving piece of the text is a run of neighbouring cells. */
  lemma {:induction false} SurvivorsAreNeighbours(cells: seq<Cell>, p: nat, length: nat, j: nat)
    requires Ordered(cells) && length > 0 && Survives(p, length, cells)
    requires j < |cells| && cells[j].Kept? && cells[j].pos == p
    ensures RunAt(cells, j, p, length)
  {
    if length > 1 {
      SurvivorsAreNeighbours(cells, p, length - 1, j);
      assert Has(cells, p + length - 1);
      var k :| 0 <= k < |cells| && cells[k].Kept? && cells[k].pos == p + length - 1;
      assert cells[j + length - 2].Kept? && cells[j + length - 2].pos == p + length - 2;
    }
  }

  /** A non-empty word of the text stands, all kept, at cell `j`. */
  ghost predicate Occurrence(cells: seq<Cell>, word: string, mark: string, text: string, j: nat, p: nat) {
    && word != "" && mark != "" && Ordered(cells) && Faithful(cells, text, mark)
    && OccursAt(Chars(cells), j, word) && RunAt(cells, j, p, |word|)
  }

  ghost predicate FoldedOccurrence(cells: seq<Cell>, word: string, mark: string, text: string, j: nat, p: nat) {
    forall c | Same(c, cells) :: Occurrence(c, word, mark, text, j, p)
  }

  ghost predicate Erased(cells: seq<Cell>, p: nat, length: nat) {
    forall c | Same(c, cells) :: !Survives(p, length, c)
  }

  function HeadSize(cells: seq<Cell>, word: string): nat {
    if OccursAt(Chars(cells), 0, word) then |word| else 1
  }

  /** Replacing a word removes part of every kept occurrence of it. */
  lemma {:induction false} ReplaceErases(cells: seq<Cell>, word: string, mark: string, text: string, j: nat, p: nat)
    requires word != "" && FoldedOccurrence(cells, word, mark, text, j, p)
    ensures Erased(ReplaceCells(cells, word, mark), p, |word|)
    decreases |cells|
  {
    var n := HeadSize(cells, word);
    if j < n {
      ErasedAtHead(cells, word, mark, text, j, p);
    } else {
      OccurrenceInTail(cells, word, mark, text, n, j, p);
      ReplaceErases(cells[n..], word, mark, text, j - n, p);
      ErasedBehindHead(cells, word, mark, text, j, p);
    }
  }

  lemma ErasedAtHead(cells: seq<Cell>, word: string, mark: string, text: string, j: nat, p: nat)
    requires word != "" && FoldedOccurrence(cells, word, mark, text, j, p) && j < HeadSize(cells, word)
    ensures Erased(ReplaceCells(cells, word, mark), p, |word|)
  {
    assert Same(cells, cells);
    var tail := cells[|word|..];
    var more := ReplaceCells(tail, word, mark);
    OrderedTail(cells, |word|, p);
    ReplaceKeeps(tail, word, mark, text);
    MarksOrdered(mark, more);
    assert cells[j].Kept? && cells[j].pos == p;
  }

  lemma ErasedBehindHead(cells: seq<Cell>, word: string, mark: string, text: string, j: nat, p: nat)
    requires word != "" && FoldedOccurrence(cells, word, mark, text, j, p) && HeadSize(cells, word) <= j < |cells|
    requires Erased(ReplaceCells(cells[HeadSize(cells, word)..], word, mark), p, |word|)
    ensures Erased(ReplaceCells(cells, word, mark), p, |word|)
  {
    var more := ReplaceCells(cells[HeadSize(cells, word)..], word, mark);
    assert Same(cells, cells) && Same(more, more);
    var q :| p <= q < p + |word| && !Has(more, q);
    assert cells[j].Kept? && cells[j].pos == p;
    HasSplit(Marks(mark), more, q);
    HasSplit([cells[0]], more, q);
  }

  lemma OccurrenceInTail(cells: seq<Cell>, word: string, mark: string, text: string, n: nat, j: nat, p: nat)
    requires FoldedOccurrence(cells, word, mark, text, j, p) && n <= j
    ensures j < |cells| && FoldedOccurrence(cells[n..], word, mark, text, j - n, p)
  {
    assert Same(cells, cells);
    var tail := cells[n..];
    assert Chars(tail) == Chars(cells)[n..];
    OccursBehind(Chars(cells), n, j, word);
    forall k | j - n <= k < j - n + |word| ensures tail[k].Kept? && tail[k].pos == p + k - (j - n) {
      assert tail[k] == cells[k + n];
    }
    OrderedTail(cells, n, p);
  }

  lemma OccursWhereRun(cells: seq<Cell>, text: string, mark: string, secret: string, j: nat, p: nat)
    requires secret != "" && Faithful(cells, text, mark) && RunAt(cells, j, p, |secret|)
    ensures OccursAt(Chars(cells), j, secret) <==> OccursAt(text, p, secret)
  {
    assert forall k | j <= k < j + |secret| :: cells[k] in cells;
    var last := j + |secret| - 1;
    assert cells[last].pos < |text|;
    assert Chars(cells)[j..j + |secret|] == text[p..p + |secret|];
  }

  lemma {:induction false} OneShotErases(cells: seq<Cell>, secrets: seq<string>, mark: string, text: string, secret: string, p: nat)
    requires AllNonEmpty(secrets) && mark != "" && secret in secrets
    requires Ordered(cells) && Faithful(cells, text, mark) && OccursAt(text, p, secret)
    ensures !Survives(p, |secret|, OneShotCells(cells, secrets, mark))
  {
    var init, last := secrets[..|secrets| - 1], secrets[|secrets| - 1];
    var before := OneShotCells(cells, init, mark);
    OneShotKeeps(cells, init, mark, text);
    ReplaceKeeps(before, last, mark, text);
    if Survives(p, |secret|, before) {
      if secret in init { OneShotErases(cells, init, mark, text, secret, p); }
      assert Has(before, p);
      var j :| 0 <= j < |before| && before[j].Kept? && before[j].pos == p;
      SurvivorsAreNeighbours(before, p, |secret|, j);
      OccursWhereRun(before, text, mark, secret, j, p);
      ReplaceErases(before, last, mark, text, j, p);
      assert Same(ReplaceCells(before, last, mark), ReplaceCells(before, last, mark));
    }
  }

  lemma {:induction false} OneShotKeeps(cells: seq<Cell>, secrets: seq<string>, mark: string, text: string)
    requires AllNonEmpty(secrets) && mark != "" && Ordered(cells) && Faithful(cells, text, mark)
    ensures var out := OneShotCells(cells, secrets, mark);
            Ordered(out) && Faithful(out, text, mark) && Replaced(cells, out)
  {
    if secrets != [] {
      var init := secrets[..|secrets| - 1];
      OneShotKeeps(cells, init, mark, text);
      ReplaceKeeps(OneShotCells(cells, init, mark), secrets[|secrets| - 1], mark, text);
    }
  }

  /** `out` redacts `text` from `start` on. */
  ghost predicate Redacts(text: string, start: nat, mark: string, out: seq<Cell>) {
    && start <= |text| && Ordered(out) && Faithful(out, text, mark)
    && (forall q: nat | Has(out, q) :: start <= q)
    && (out == [] <==> start == |text|)
    && (out != [] ==> if out[0].Kept? then out[0].pos == start else !Has(out, start))
  }

  lemma MarksPrepended(text: string, start: nat, n: nat, mark: string, more: seq<Cell>)
    requires mark != "" && n > 0 && Redacts(text, start + n, mark, more)
    ensures Redacts(text, start, mark, Marks(mark) + more)
    ensures forall q: nat :: Has(Marks(mark) + more, q) <==> Has(more, q)
  {
    MarksOrdered(mark, more);
  }

  lemma KeptPrepended(text: string, start: nat, mark: string, more: seq<Cell>)
    requires start < |text| && Redacts(text, start + 1, mark, more)
    ensures Redacts(text, start, mark, [Kept(start, text[start])] + more)
    ensures forall q: nat :: Has([Kept(start, text[start])] + more, q) <==> q == start || Has(more, q)
  {
    PrependOrdered(Kept(start, text[start]), more);
  }

  lemma RawRedacts(text: string, start: nat, mark: string)
    requires start <= |text|
    ensures Redacts(text, start, mark, Raw(text, start))
    ensures forall q: nat :: Has(Raw(text, start), q) <==> start <= q < |text|
  {
    var raw := Raw(text, start);
    forall q: nat | start <= q < |text| ensures Has(raw, q) {
      assert raw[q - start].Kept?;
    }
  }

  /** Redacts, kept folded until Same names the cells it is about. */
  ghost predicate FoldedRedacts(text: string, start: nat, mark: string, out: seq<Cell>) {
    forall cells | Same(cells, out) :: Redacts(text, start, mark, cells)
  }

  lemma {:induction false} ScanKeeps(text: string, rest: string, start: nat, secrets: seq<string>, mark: string, tail: seq<Cell>)
    requires AllNonEmpty(secrets) && secrets != [] && mark != "" && Behind(text, start, rest)
    requires FoldedRedacts(text, start + ScanStop(rest, secrets), mark, tail)
    ensures FoldedRedacts(text, start, mark, ScanCells(rest, start, secrets, mark, tail))
    decreases |rest|
  {
    if |rest| >= |secrets[0]| {
      var n := StepSize(rest, secrets);
      BehindStep(text, start, rest, n);
      ScanCellsStep(rest, start, secrets, mark, tail);
      ScanKeeps(text, rest[n..], start + n, secrets, mark, tail);
      StepRedacts(text, rest, start, secrets, mark, ScanCells(rest[n..], start + n, secrets, mark, tail));
    }
  }

  /** The rest of the text from `start` on. Folded, as above. */
  ghost predicate Behind(text: string, start: nat, rest: string) {
    forall r | Same(r, rest) :: start <= |text| && r == text[start..]
  }

  lemma BehindStep(text: string, start: nat, rest: string, n: nat)
    requires Behind(text, start, rest) && n <= |rest|
    ensures Behind(text, start + n, rest[n..])
  {
    assert Same(rest, rest);
  }

  lemma ScanCellsStep(rest: string, start: nat, secrets: seq<string>, mark: string, tail: seq<Cell>)
    requires AllNonEmpty(secrets) && secrets != [] && |rest| >= |secrets[0]|
    ensures var n := StepSize(rest, secrets);
            && ScanStop(rest, secrets) == n + ScanStop(rest[n..], secrets)
            && ScanCells(rest, start, secrets, mark, tail)
               == StepCells(rest, start, secrets, mark) + ScanCells(rest[n..], start + n, secrets, mark, tail)
  {
  }

  lemma StepRedacts(text: string, rest: string, start: nat, secrets: seq<string>, mark: string, more: seq<Cell>)
    requires AllNonEmpty(secrets) && mark != "" && Behind(text, start, rest) && rest != ""
    requires FoldedRedacts(text, start + StepSize(rest, secrets), mark, more)
    ensures FoldedRedacts(text, start, mark, StepCells(rest, start, secrets, mark) + more)
  {
    assert Same(more, more) && Same(rest, rest);
    if FirstMatch(rest, 0, secrets).None? {
      KeptPrepended(text, start, mark, more);
    } else {
      MarksPrepended(text, start, StepSize(rest, secrets), mark, more);
    }
  }

  ghost predicate From(cells: seq<Cell>, start: nat) {
    forall q: nat | Has(cells, q) :: start <= q
  }

  /** What stands for the `n` characters from `start` on, in front of `more`,
      restores no character behind them. */
  lemma FrontErases(front: seq<Cell>, more: seq<Cell>, start: nat, n: nat, p: nat, length: nat)
    requires From(more, start + n)
    requires n == 1 || !Has(front, start)
    requires forall q: nat | q != start :: !Has(front, q)
    ensures From(front + more, start)
    ensures start + n <= p && !Survives(p, length, more) ==> !Survives(p, length, front + more)
    ensures length > 0 && start <= p < start + n && !Has(front, start) ==> !Survives(p, length, front + more)
  {
    forall q: nat ensures Has(front + more, q) <==> Has(front, q) || Has(more, q) {
      HasSplit(front, more, q);
    }
    if start + n <= p && !Survives(p, length, more) {
      var q :| p <= q < p + length && !Has(more, q);
      assert !Has(front + more, q);
    } else if length > 0 && start <= p < start + n && !Has(front, start) {
      assert !Has(front + more, p);
    }
  }

  /** The cells start at position `start`, and lack one of the `length`
      characters from `p` on if those lie there. Folded, as above. */
  ghost predicate Lacks(cells: seq<Cell>, start: nat, p: nat, length: nat) {
    forall c | Same(c, cells) :: From(c, start) && (start <= p ==> !Survives(p, length, c))
  }

  /** An occurrence the tail does not keep whole is not kept whole at all: the
      scan covers it with a match that starts there or before. */
  lemma {:induction false} ScanErases(rest: string, start: nat, secrets: seq<string>, mark: string, tail: seq<Cell>,
                                      secret: string, p: nat)
    requires AllNonEmpty(secrets) && secrets != [] && secret in secrets
    requires start <= p ==> OccursAt(rest, p - start, secret)
    requires Lacks(tail, start + ScanStop(rest, secrets), p, |secret|)
    ensures Lacks(ScanCells(rest, start, secrets, mark, tail), start, p, |secret|)
    decreases |rest|
  {
    if |rest| >= |secrets[0]| {
      var n := StepSize(rest, secrets);
      if start + n <= p { OccursBehind(rest, n, p - start, secret); }
      ScanErases(rest[n..], start + n, secrets, mark, tail, secret, p);
      StepErases(rest, start, secrets, mark, ScanCells(rest[n..], start + n, secrets, mark, tail), secret, p);
    }
  }

  lemma StepErases(rest: string, start: nat, secrets: seq<string>, mark: string, more: seq<Cell>, secret: string, p: nat)
    requires AllNonEmpty(secrets) && secret in secrets && rest != ""
    requires start <= p ==> OccursAt(rest, p - start, secret)
    requires Lacks(more, start + StepSize(rest, secrets), p, |secret|)
    ensures Lacks(StepCells(rest, start, secrets, mark) + more, start, p, |secret|)
  {
    assert Same(more, more);
    if p == start && FirstMatch(rest, 0, secrets).None? { NoMatch(rest, 0, secrets, secret); }
    FrontErases(StepCells(rest, start, secrets, mark), more, start, StepSize(rest, secrets), p, |secret|);
  }

  /** The streamed output is the raw text with pieces of it replaced by markers. */
  lemma StreamedKeeps(text: string, secrets: seq<string>, mark: string)
    requires AllNonEmpty(secrets) && mark != ""
    ensures Redacts(text, 0, mark, StreamedCells(text, secrets, mark))
  {
    RawRedacts(text, 0, mark);
    if secrets != [] {
      TailRedacts(text, ScanStop(text, secrets), secrets, mark);
      assert text[0..] == text;
      ScanKeeps(text, text, 0, secrets, mark, OneShotCells(Raw(text, ScanStop(text, secrets)), secrets, mark));
      assert Same(StreamedCells(text, secrets, mark), StreamedCells(text, secrets, mark));
    }
  }

  lemma TailRedacts(text: string, start: nat, secrets: seq<string>, mark: string)
    requires AllNonEmpty(secrets) && mark != "" && start <= |text|
    ensures Redacts(text, start, mark, OneShotCells(Raw(text, start), secrets, mark))
  {
    RawRedacts(text, start, mark);
    OneShotKeeps(Raw(text, start), secrets, mark, text);
  }

  /** Every occurrence of a secret in the raw text loses a character, also one
      that straddles chunks or the end of the scanned body. */
  lemma StreamedErases(text: string, secrets: seq<string>, mark: string, secret: string, p: nat)
    requires AllNonEmpty(secrets) && mark != ""
    requires secret in secrets && OccursAt(text, p, secret)
    ensures !Survives(p, |secret|, StreamedCells(text, secrets, mark))
  {
    var stop := ScanStop(text, secrets);
    TailRedacts(text, stop, secrets, mark);
    RawRedacts(text, stop, mark);
    OneShotErases(Raw(text, stop), secrets, mark, text, secret, p);
    if secrets != [] {
      ScanErases(text, 0, secrets, mark, OneShotCells(Raw(text, stop), secrets, mark), secret, p);
      assert Same(StreamedCells(text, secrets, mark), StreamedCells(text, secrets, mark));
    }
  }

  /** Wherever the output spells the word, it does so without a marker's help. */
  ghost predicate SpelledByKept(cells: seq<Cell>, word: string) {
    forall j: nat | OccursAt(Chars(cells), j, word) :: KeptRun(cells, j, |word|)
  }

  ghost predicate KeptRun(cells: seq<Cell>, j: nat, length: nat) {
    j + length <= |cells| && forall k | j <= k < j + length :: cells[k].Kept?
  }

  /** Output that lost part of every occurrence of a secret does not contain it,
      unless a marker supplies some of its characters. */
  lemma NotInOutput(cells: seq<Cell>, text: string, mark: string, secret: string)
    requires Ordered(cells) && Faithful(cells, text, mark) && secret != "" && SpelledByKept(cells, secret)
    requires forall p: nat | p <= |text| && OccursAt(text, p, secret) :: !Survives(p, |secret|, cells)
    ensures !Contains(Chars(cells), secret)
  {
    forall j: nat | j <= |cells| && OccursAt(Chars(cells), j, secret) ensures false {
      assert KeptRun(cells, j, |secret|);
      var p := cells[j].pos;
      NeighboursAreRun(cells, j, |secret|);
      OccursWhereRun(cells, text, mark, secret, j, p);
      assert Survives(p, |secret|, cells) by {
        forall q | p <= q < p + |secret| ensures Has(cells, q) {
          assert cells[j + (q - p)] in cells && cells[j + (q - p)].pos == q;
        }
      }
    }
  }

  /** A secret that shares no character with the marker is spelled by kept cells. */
  lemma UnsharedIsKept(cells: seq<Cell>, text: string, mark: string, secret: string)
    requires Faithful(cells, text, mark) && forall c | c in secret :: c !in mark
    ensures SpelledByKept(cells, secret)
  {
    forall j: nat, k | OccursAt(Chars(cells), j, secret) && j <= k < j + |secret| ensures k < |cells| && cells[k].Kept? {
      assert Chars(cells)[j..j + |secret|][k - j] == secret[k - j] == cells[k].ch;
      assert cells[k] in cells && secret[k - j] in secret;
    }
  }

  lemma {:induction false} NeighboursAreRun(cells: seq<Cell>, j: nat, length: nat)
    requires Ordered(cells) && 0 < length && j + length <= |cells|
    requires forall k | j <= k < j + length :: cells[k].Kept?
    ensures RunAt(cells, j, cells[j].pos, length)
  {
    if length > 1 {
      NeighboursAreRun(cells, j, length - 1);
      assert cells[j + length - 2].Kept? && cells[j + length - 1].Kept?;
    }
  }

  // ----- markers stay whole -----

  /** Inside a marker one character follows the other. */
  predicate Joined(a: Cell, b: Cell, mark: string) {
    && (a.Mark? && a.index + 1 < |mark| ==> b == Mark(a.index + 1, mark[a.index + 1]))
    && (b.Mark? && b.index > 0 ==> a.Mark? && a.index == b.index - 1)
  }

  /** No marker is cut, but the first may have begun before these cells. */
  ghost predicate Whole(cells: seq<Cell>, mark: string) {
    && (forall i | 0 <= i < |cells| - 1 :: Joined(cells[i], cells[i + 1], mark))
    && (cells != [] ==> cells[|cells| - 1].Kept? || cells[|cells| - 1].index + 1 == |mark|)
    && (forall c | c in cells && c.Mark? :: c.index < |mark| && c.ch == mark[c.index])
  }

  predicate Opens(cells: seq<Cell>) { cells != [] && cells[0].Mark? ==> cells[0].index == 0 }

  lemma WholeTail(cells: seq<Cell>, n: nat, mark: string)
    requires Whole(cells, mark) && n <= |cells|
    ensures Whole(cells[n..], mark)
  {
    var tail := cells[n..];
    forall i | 0 <= i < |tail| - 1 ensures Joined(tail[i], tail[i + 1], mark) {
      assert Joined(cells[n + i], cells[n + i + 1], mark);
    }
  }

  lemma PrependWhole(c: Cell, more: seq<Cell>, mark: string)
    requires Whole(more, mark) && (c.Mark? ==> c.index < |mark| && c.ch == mark[c.index])
    requires if more == [] then c.Kept? || c.index + 1 == |mark| else Joined(c, more[0], mark)
    ensures Whole([c] + more, mark)
  {
    var out := [c] + more;
    forall i | 0 <= i < |out| - 1 ensures Joined(out[i], out[i + 1], mark) {
      if i > 0 { assert Joined(more[i - 1], more[i], mark); }
    }
  }

  lemma MarksWhole(mark: string, more: seq<Cell>)
    requires mark != "" && Whole(more, mark) && Opens(more)
    ensures Whole(Marks(mark) + more, mark) && Opens(Marks(mark) + more)
  {
    var out := Marks(mark) + more;
    forall i | 0 <= i < |out| - 1 ensures Joined(out[i], out[i + 1], mark) {
      if i >= |mark| { assert Joined(more[i - |mark|], more[i - |mark| + 1], mark); }
    }
  }

  /** The rest of a marker follows its beginning. */
  lemma {:induction false} MarkerRunsOn(cells: seq<Cell>, i: nat, n: nat, mark: string)
    requires Whole(cells, mark) && i < |cells| && cells[i].Mark? && cells[i].index + n < |mark|
    ensures i + n < |cells| && cells[i + n] == Mark(cells[i].index + n, mark[cells[i].index + n])
  {
    assert cells[i] in cells;
    if n > 0 {
      MarkerRunsOn(cells, i, n - 1, mark);
      assert i + n < |cells| ==> Joined(cells[i + n - 1], cells[i + n], mark);
    }
  }

  /** An unaligned word at the start touches no marker. */
  lemma HeadIsKept(cells: seq<Cell>, word: string, mark: string)
    requires Whole(cells, mark) && Unaligned(word, mark) && OccursAt(Chars(cells), 0, word)
    ensures KeptRun(cells, 0, |word|)
  {
    forall k | 0 <= k < |word| ensures word[k] == cells[k].ch { assert Chars(cells)[0..|word|][k] == cells[k].ch; }
    if !KeptRun(cells, 0, |word|) {
      var k :| 0 <= k < |word| && cells[k].Mark?;
      var i := FirstMarker(cells, k);
      assert cells[i] in cells;
      assert i > 0 ==> Joined(cells[i - 1], cells[i], mark);
      TouchIsAligned(cells, word, mark, i);
    }
  }

  lemma {:induction false} FirstMarker(cells: seq<Cell>, k: nat) returns (i: nat)
    requires k < |cells| && cells[k].Mark?
    ensures i <= k && cells[i].Mark? && forall h | 0 <= h < i :: cells[h].Kept?
  {
    if h :| 0 <= h < k && cells[h].Mark? { i := FirstMarker(cells, h); } else { i := k; }
  }

  lemma TouchIsAligned(cells: seq<Cell>, word: string, mark: string, i: nat)
    requires Whole(cells, mark) && |word| <= |cells| && i < |word| && cells[i].Mark? && cells[i].index < |mark|
    requires i > 0 ==> cells[i].index == 0
    requires forall k | 0 <= k < |word| :: word[k] == cells[k].ch
    ensures Aligned(word, mark, cells[i].index - i)
  {
    var d := cells[i].index - i;
    forall k | 0 <= k < |word| && 0 <= d + k < |mark| ensures word[k] == mark[d + k] {
      MarkerRunsOn(cells, i, k - i, mark);
    }
  }

  /** Replacing an unaligned word leaves every marker whole. */
  lemma {:induction false} ReplaceWhole(cells: seq<Cell>, word: string, mark: string)
    requires word != "" && mark != "" && Whole(cells, mark) && Unaligned(word, mark)
    ensures var out := ReplaceCells(cells, word, mark);
            && Whole(out, mark) && (out == [] <==> cells == [])
            && (cells != [] ==> out[0] == cells[0] || (cells[0].Kept? && out[0] == Mark(0, mark[0])))
  {
    if cells != [] {
      var n := HeadSize(cells, word);
      var more := ReplaceCells(cells[n..], word, mark);
      WholeTail(cells, n, mark);
      ReplaceWhole(cells[n..], word, mark);
      if OccursAt(Chars(cells), 0, word) {
        HeadIsKept(cells, word, mark);
        assert n < |cells| ==> Joined(cells[n - 1], cells[n], mark);
        MarksWhole(mark, more);
      } else {
        assert cells[0] in cells;
        assert |cells| > 1 ==> Joined(cells[0], cells[1], mark);
        PrependWhole(cells[0], more, mark);
      }
    }
  }

  lemma {:induction false} OneShotWhole(cells: seq<Cell>, secrets: seq<string>, mark: string)
    requires AllNonEmpty(secrets) && mark != "" && Whole(cells, mark) && Opens(cells)
    requires forall s | s in secrets :: Unaligned(s, mark)
    ensures Whole(OneShotCells(cells, secrets, mark), mark) && Opens(OneShotCells(cells, secrets, mark))
  {
    if secrets != [] {
      OneShotWhole(cells, secrets[..|secrets| - 1], mark);
      ReplaceWhole(OneShotCells(cells, secrets[..|secrets| - 1], mark), secrets[|secrets| - 1], mark);
    }
  }

  /** Whole markers, the first included. Folded, as above. */
  ghost predicate AllWhole(cells: seq<Cell>, mark: string) {
    forall c | Same(c, cells) :: Whole(c, mark) && Opens(c)
  }

  lemma StepWhole(rest: string, start: nat, secrets: seq<string>, mark: string, more: seq<Cell>)
    requires rest != "" && mark != "" && AllWhole(more, mark)
    ensures AllWhole(StepCells(rest, start, secrets, mark) + more, mark)
  {
    assert Same(more, more);
    if FirstMatch(rest, 0, secrets).None? {
      PrependWhole(Kept(start, rest[0]), more, mark);
    } else {
      MarksWhole(mark, more);
    }
  }

  lemma {:induction false} ScanWhole(rest: string, start: nat, secrets: seq<string>, mark: string, tail: seq<Cell>)
    requires AllNonEmpty(secrets) && secrets != [] && mark != "" && AllWhole(tail, mark)
    ensures AllWhole(ScanCells(rest, start, secrets, mark, tail), mark)
    decreases |rest|
  {
    if |rest| >= |secrets[0]| {
      var n := StepSize(rest, secrets);
      ScanWhole(rest[n..], start + n, secrets, mark, tail);
      StepWhole(rest, start, secrets, mark, ScanCells(rest[n..], start + n, secrets, mark, tail));
    }
  }

  lemma UnalignedIsKept(cells: seq<Cell>, word: string, mark: string)
    requires Whole(cells, mark) && Unaligned(word, mark)
    ensures SpelledByKept(cells, word)
  {
    forall j: nat | OccursAt(Chars(cells), j, word) ensures KeptRun(cells, j, |word|) {
      var tail := cells[j..];
      assert Chars(tail) == Chars(cells)[j..];
      OccursBehind(Chars(cells), j, j, word);
      WholeTail(cells, j, mark);
      HeadIsKept(tail, word, mark);
      forall k | j <= k < j + |word| ensures cells[k].Kept? { assert tail[k - j].Kept?; }
    }
  }

  // ----- no secret survives -----

  /** Both outputs lack a secret that only kept cells could spell in them. */
  lemma LostSecret(text: string, secrets: seq<string>, mark: string, secret: string)
    requires AllNonEmpty(secrets) && secret in secrets && mark != ""
    requires SpelledByKept(StreamedCells(text, secrets, mark), secret)
    requires SpelledByKept(OneShotCells(Raw(text, 0), secrets, mark), secret)
    ensures !Contains(Streamed(text, secrets, mark), secret)
    ensures !Contains(OneShot(text, secrets, mark), secret)
  {
    StreamedCellsSpell(text, secrets, mark);
    StreamedKeeps(text, secrets, mark);
    var raw := Raw(text, 0);
    RawRedacts(text, 0, mark);
    assert Chars(raw) == text;
    OneShotCellsSpell(raw, secrets, mark);
    OneShotKeeps(raw, secrets, mark, text);
    forall p: nat | p <= |text| && OccursAt(text, p, secret)
      ensures !Survives(p, |secret|, StreamedCells(text, secrets, mark))
      ensures !Survives(p, |secret|, OneShotCells(raw, secrets, mark))
    {
      StreamedErases(text, secrets, mark, secret, p);
      OneShotErases(raw, secrets, mark, text, secret, p);
    }
    NotInOutput(StreamedCells(text, secrets, mark), text, mark, secret);
    NotInOutput(OneShotCells(raw, secrets, mark), text, mark, secret);
  }

  /** If no secret aligns with the marker, neither the streamed output, whatever the
      chunks, nor the one-shot output contains a secret. */
  lemma NoSecretSurvives(text: string, secrets: seq<string>, mark: string, secret: string)
    requires AllNonEmpty(secrets) && secret in secrets && mark != ""
    requires forall s | s in secrets :: Unaligned(s, mark)
    ensures !Contains(Streamed(text, secrets, mark), secret)
    ensures !Contains(OneShot(text, secrets, mark), secret)
  {
    OneShotWhole(Raw(text, 0), secrets, mark);
    UnalignedIsKept(OneShotCells(Raw(text, 0), secrets, mark), secret, mark);
    var stop := ScanStop(text, secrets);
    var tail := OneShotCells(Raw(text, stop), secrets, mark);
    OneShotWhole(Raw(text, stop), secrets, mark);
    if secrets != [] { ScanWhole(text, 0, secrets, mark, tail); }
    assert Same(StreamedCells(text, secrets, mark), StreamedCells(text, secrets, mark));
    UnalignedIsKept(StreamedCells(text, secrets, mark), secret, mark);
    LostSecret(text, secrets, mark, secret);
  }

  /** A secret that shares no character with the marker is lost whatever the others
      are, even if those break markers apart. */
  lemma UnsharedSecretIsLost(text: string, secrets: seq<string>, mark: string, secret: string)
    requires AllNonEmpty(secrets) && secret in secrets
    requires mark != "" && forall c | c in secret :: c !in mark
    ensures !Contains(Streamed(text, secrets, mark), secret)
    ensures !Contains(OneShot(text, secrets, mark), secret)
  {
    StreamedKeeps(text, secrets, mark);
    RawRedacts(text, 0, mark);
    OneShotKeeps(Raw(text, 0), secrets, mark, text);
    UnsharedIsKept(StreamedCells(text, secrets, mark), text, mark, secret);
    UnsharedIsKept(OneShotCells(Raw(text, 0), secrets, mark), text, mark, secret);
    LostSecret(text, secrets, mark, secret);
  }

  /** A marker that shares characters with a secret can complete it: in "aab", which
      does not contain the secret "]b", replacing the secret "aa" makes it appear. */
  lemma MarkerCanCompleteSecret()
    ensures Contains(Streamed("aab", ["aa", "]b"], REDACTION), "]b")
  {
    var secrets := ["aa", "]b"];
    assert OccursAt("aab", 0, "aa") && "aab"[2..] == "b";
    assert !OccursAt("b", 0, "aa") && !OccursAt("b", 0, "]b") && "b"[1..] == "";
    assert secrets[..1] == ["aa"] && secrets[..1][..0] == [];
    assert OneShot("b", secrets[..1], REDACTION) == "b";
    assert Streamed("b", secrets, REDACTION) == "b";
    assert Streamed("aab", secrets, REDACTION) == REDACTION + "b";
    assert OccursAt(REDACTION + "b", 9, "]b");
  }
}
