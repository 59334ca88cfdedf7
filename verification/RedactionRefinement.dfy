/** When the streamed redaction equals one-shot replacement of the whole text. */
module RedactionRefinement {
  import opened Text
  import opened RedactionSpec

  /** No secret but the first, which is replaced where no marker stands yet, aligns
      with the marker. */
  predicate LaterUnaligned(secrets: seq<string>, mark: string) {
    forall i | 1 <= i < |secrets| :: Unaligned(secrets[i], mark)
  }

  predicate MarkerFree(secrets: seq<string>, mark: string) {
    forall i | 0 <= i < |secrets| :: forall k | 0 <= k < |secrets[i]| :: secrets[i][k] !in mark
  }

  /** A secret that shares no character with the marker does not align with it. */
  lemma MarkerFreeIsUnaligned(secrets: seq<string>, mark: string)
    requires mark != "" && AllNonEmpty(secrets) && MarkerFree(secrets, mark)
    ensures forall i | 0 <= i < |secrets| :: Unaligned(secrets[i], mark)
  {
    forall i, d | 0 <= i < |secrets| && -|secrets[i]| < d < |mark| ensures !Aligned(secrets[i], mark, d) {
      var k := if d < 0 then -d else 0;
      assert secrets[i][k] !in mark && mark[d + k] in mark;
    }
  }

  /** Where a whole marker stands, an unaligned word that starts before its end lies
      before it. */
  lemma EndsBeforeMarker(output: string, m: nat, i: nat, word: string, mark: string)
    requires mark != "" && word != "" && Unaligned(word, mark)
    requires OccursAt(output, m, mark) && OccursAt(output, i, word) && i < m + |mark|
    ensures i + |word| <= m
  {
    if i + |word| > m {
      var d := i - m;
      forall k | 0 <= k < |word| && 0 <= d + k < |mark| ensures word[k] == mark[d + k] {
        assert output[i..i + |word|][k] == output[i + k] == output[m..m + |mark|][d + k];
      }
      assert Aligned(word, mark, d);
    }
  }

  /** Secret `b` can hide an occurrence of the earlier secret `a` that starts `d`
      characters into it, and no secret before `b` claims their common text. */
  predicate Conflict(secrets: seq<string>, a: nat, b: nat, d: nat) {
    && a < b < |secrets| && 0 < d < |secrets[b]|
    && secrets[b][d..] <= secrets[a]
    && forall c | 0 <= c < b :: !(secrets[c] <= secrets[b][..d] + secrets[a])
  }

  ghost predicate NoConflict(secrets: seq<string>) {
    forall a: nat, b: nat, d: nat :: !Conflict(secrets, a, b, d)
  }

  ghost predicate NeverOverlap(s: string, t: string) {
    forall text: string, i: nat, j: nat | OccursAt(text, i, s) && OccursAt(text, j, t) ::
      i + |s| <= j || j + |t| <= i
  }

  /** Secrets that can overlap in no text have no conflict. */
  lemma NeverOverlapHasNoConflict(secrets: seq<string>)
    requires Normalized(secrets)
    requires forall a, b | 0 <= a < b < |secrets| :: NeverOverlap(secrets[a], secrets[b])
    ensures NoConflict(secrets)
  {
    forall a: nat, b: nat, d: nat ensures !Conflict(secrets, a, b, d) {
      if Conflict(secrets, a, b, d) {
        var s, t := secrets[a], secrets[b];
        var text := t[..d] + s;
        assert OccursAt(text, d, s);
        assert text[0..|t|] == t[..d] + t[d..] == t;
        assert OccursAt(text, 0, t) && NeverOverlap(s, t);
      }
    }
  }

  // ----- the one-shot replacement as a scan -----

  lemma {:induction false} ReplaceSkips(front: string, rest: string, word: string, mark: string)
    requires word != "" && forall k | 0 <= k < |front| :: word[0] != front[k]
    ensures Replace(front + rest, word, mark) == front + Replace(rest, word, mark)
  {
    if front == "" {
      assert front + rest == rest;
    } else {
      assert (front + rest)[1..] == front[1..] + rest;
      ReplaceSkips(front[1..], rest, word, mark);
    }
  }

  lemma {:induction false} NoFirstMatch(text: string, i: nat, secrets: seq<string>)
    requires forall c | 0 <= c < |secrets| :: !OccursAt(text, i, secrets[c])
    ensures FirstMatch(text, i, secrets).None?
  {
    if secrets != [] { NoFirstMatch(text, i, secrets[1..]); }
  }

  /** Where no secret starts, the scan copies. */
  lemma {:induction false} ScanCopies(text: string, n: nat, secrets: seq<string>, mark: string)
    requires AllNonEmpty(secrets) && n <= |text|
    requires forall i | 0 <= i < n :: FirstMatch(text[i..], 0, secrets).None?
    ensures Scan(text, secrets, mark) == text[..n] + Scan(text[n..], secrets, mark)
  {
    if n == 0 {
      assert text[0..] == text;
    } else {
      var rest := text[1..];
      assert text[0..] == text;
      forall i | 0 <= i < n - 1 ensures FirstMatch(rest[i..], 0, secrets).None? {
        assert rest[i..] == text[i + 1..];
      }
      ScanCopies(rest, n - 1, secrets, mark);
      ScanMiss(text, secrets, mark);
      assert rest[n - 1..] == text[n..];
      assert text[..n] == [text[0]] + rest[..n - 1];
      AppendAssociates([text[0]], rest[..n - 1], Scan(text[n..], secrets, mark));
    }
  }

  lemma ScanMiss(text: string, secrets: seq<string>, mark: string)
    requires AllNonEmpty(secrets) && text != "" && FirstMatch(text, 0, secrets).None?
    ensures Scan(text, secrets, mark) == [text[0]] + Scan(text[1..], secrets, mark)
  {
  }

  /** The scan's output copies the first `n` characters of the text, or has a whole
      marker before index `n`. */
  lemma {:induction false} CopiedOrMarked(text: string, n: nat, secrets: seq<string>, mark: string) returns (i: nat)
    requires AllNonEmpty(secrets)
    requires n <= |Scan(text, secrets, mark)|
    ensures i <= n && (i < n ==> OccursAt(Scan(text, secrets, mark), i, mark))
    ensures i == n ==> n <= |text| && text[..n] == Scan(text, secrets, mark)[..n]
  {
    var out := Scan(text, secrets, mark);
    if n == 0 {
      i := 0;
    } else if FirstMatch(text, 0, secrets).Some? {
      i := 0;
      assert out[0..|mark|] == mark;
    } else {
      ScanMiss(text, secrets, mark);
      i := CopiedOrMarked(text[1..], n - 1, secrets, mark);
      OccursLater(out, 1, i, mark);
      assert out[1..] == Scan(text[1..], secrets, mark);
      i := i + 1;
      if i == n { assert text[..n] == [text[0]] + text[1..][..n - 1]; }
    }
  }

  /** Replacing one more secret, the last in the order, in a scan that left it
      out gives the scan that takes it. */
  lemma {:induction false} ScanTakesOneMore(text: string, init: seq<string>, t: string, mark: string)
    requires AllNonEmpty(init) && t != "" && mark != ""
    requires Normalized(init + [t]) && NoConflict(init + [t]) && (init == [] || Unaligned(t, mark))
    ensures Replace(Scan(text, init, mark), t, mark) == Scan(text, init + [t], mark)
    decreases |text|
  {
    var all := init + [t];
    assert all[|init|] == t && forall c | 0 <= c < |init| :: all[c] == init[c];
    FirstMatchAppend(text, init, t);
    if text == "" {
    } else if FirstMatch(text, 0, init).Some? {
      var rest := text[StepSize(text, init)..];
      ScanTakesOneMore(rest, init, t, mark);
      MarkSkipped(t, mark, Scan(rest, init, mark));
    } else if OccursAt(text, 0, t) {
      var rest := text[|t|..];
      LastMatchHidesNone(text, init, t);
      ScanCopies(text, |t|, init, mark);
      ScanTakesOneMore(rest, init, t, mark);
      ReplaceHead(t, Scan(rest, init, mark), mark);
    } else {
      ScanMiss(text, init, mark);
      ScanMiss(text, all, mark);
      ScanTakesOneMore(text[1..], init, t, mark);
      NotCreated(text, init, t, mark);
      ReplaceMiss(text[0], Scan(text[1..], init, mark), t, mark);
    }
  }

  lemma {:induction false} FirstMatchAppend(text: string, init: seq<string>, t: string)
    ensures FirstMatch(text, 0, init + [t]) ==
            if FirstMatch(text, 0, init).Some? then FirstMatch(text, 0, init)
            else if OccursAt(text, 0, t) then Some(t) else None
  {
    if init != [] {
      assert (init + [t])[1..] == init[1..] + [t];
      FirstMatchAppend(text, init[1..], t);
    }
  }

  lemma MarkSkipped(word: string, mark: string, rest: string)
    requires mark != "" && word != "" && Unaligned(word, mark)
    ensures Replace(mark + rest, word, mark) == mark + Replace(rest, word, mark)
  {
    var out := mark + rest;
    assert out[0..|mark|] == mark && out[|mark|..] == rest && out[..|mark|] == mark;
    forall i | 0 <= i < |mark| ensures !OccursAt(out, i, word) {
      if OccursAt(out, i, word) { EndsBeforeMarker(out, 0, i, word, mark); }
    }
    ReplaceCopies(out, word, mark, |mark|);
  }

  lemma ReplaceHead(word: string, rest: string, mark: string)
    requires word != ""
    ensures Replace(word + rest, word, mark) == mark + Replace(rest, word, mark)
  {
    assert (word + rest)[0..|word|] == word && (word + rest)[|word|..] == rest;
  }

  lemma ReplaceMiss(c: char, rest: string, word: string, mark: string)
    requires word != "" && !OccursAt([c] + rest, 0, word)
    ensures Replace([c] + rest, word, mark) == [c] + Replace(rest, word, mark)
  {
    assert ([c] + rest)[1..] == rest;
  }

  /** Scanning for other secrets cannot bring about an occurrence of `t`. */
  lemma NotCreated(text: string, init: seq<string>, t: string, mark: string)
    requires AllNonEmpty(init) && t != "" && mark != "" && (init == [] || Unaligned(t, mark))
    ensures OccursAt(Scan(text, init, mark), 0, t) ==> OccursAt(text, 0, t)
  {
    var out := Scan(text, init, mark);
    if init == [] {
      EmptyScanCopies(text, mark);
    } else if OccursAt(out, 0, t) {
      var i := CopiedOrMarked(text, |t|, init, mark);
      if i < |t| { EndsBeforeMarker(out, i, 0, t, mark); }
      assert text[0..|t|] == text[..|t|] == out[..|t|] == out[0..|t|];
    }
  }

  /** Without a conflict, no earlier secret starts inside an occurrence of the
      last one that no earlier secret claims. */
  lemma LastMatchHidesNone(text: string, init: seq<string>, t: string)
    requires Normalized(init + [t]) && NoConflict(init + [t])
    requires FirstMatch(text, 0, init).None? && OccursAt(text, 0, t)
    ensures forall d | 0 <= d < |t| :: FirstMatch(text[d..], 0, init).None?
  {
    var all := init + [t];
    forall d | 0 <= d < |t| ensures FirstMatch(text[d..], 0, init).None? {
      if d == 0 {
        assert text[0..] == text;
      } else {
        forall a | 0 <= a < |init| ensures !OccursAt(text[d..], 0, init[a]) {
          if OccursAt(text[d..], 0, init[a]) { HiddenIsConflict(text, init, t, a, d); }
        }
        NoFirstMatch(text[d..], 0, init);
      }
    }
  }

  lemma HiddenIsConflict(text: string, init: seq<string>, t: string, a: nat, d: nat)
    requires Normalized(init + [t]) && a < |init| && 0 < d < |t|
    requires FirstMatch(text, 0, init).None? && OccursAt(text, 0, t) && OccursAt(text[d..], 0, init[a])
    ensures Conflict(init + [t], a, |init|, d)
  {
    var all, s := init + [t], init[a];
    assert |all[a]| >= |all[|init|]|;
    Overlapping(text, s, t, d);
    forall c | 0 <= c < |init| ensures !(all[c] <= t[..d] + s) {
      assert all[c] == init[c] && init[c] in init;
      NoMatch(text, 0, init, init[c]);
    }
  }

  /** Two overlapping words, the first at the start of the text. */
  lemma Overlapping(text: string, s: string, t: string, d: nat)
    requires OccursAt(text, 0, t) && d < |t| <= |s| && OccursAt(text[d..], 0, s)
    ensures t[d..] <= s
    ensures forall u: string | u <= t[..d] + s :: OccursAt(text, 0, u)
  {
    var joined := t[..d] + s;
    assert text[0..|t|] == t && text[d..][0..|s|] == s;
    forall k | 0 <= k < |joined| ensures k < |text| && joined[k] == text[k] {
      if k < d { assert t[k] == text[k]; } else { assert s[k - d] == text[d..][k - d]; }
    }
    forall k | 0 <= k < |t| - d ensures t[d..][k] == s[k] {
      assert t[d + k] == text[d + k] == text[d..][k];
    }
    forall u: string | u <= joined ensures OccursAt(text, 0, u) {
      assert forall k | 0 <= k < |u| :: u[k] == joined[k];
      assert text[0..|u|] == u;
    }
  }

  /** Without a conflict and without secrets that align with the marker, one-shot
      replacement is a leftmost scan. */
  lemma {:induction false} OneShotIsScan(text: string, secrets: seq<string>, mark: string)
    requires mark != "" && Normalized(secrets) && LaterUnaligned(secrets, mark) && NoConflict(secrets)
    ensures OneShot(text, secrets, mark) == Scan(text, secrets, mark)
  {
    if secrets == [] {
      EmptyScanCopies(text, mark);
    } else {
      var init, t := secrets[..|secrets| - 1], secrets[|secrets| - 1];
      assert init + [t] == secrets;
      forall a: nat, b: nat, d: nat ensures !Conflict(init, a, b, d) {
        assert Conflict(init, a, b, d) ==> Conflict(secrets, a, b, d);
      }
      OneShotIsScan(text, init, mark);
      ScanTakesOneMore(text, init, t, mark);
    }
  }

  lemma {:induction false} EmptyScanCopies(text: string, mark: string)
    ensures Scan(text, [], mark) == text
  {
    if text != "" { EmptyScanCopies(text[1..], mark); }
  }

  /** A one-shot replacement that is a scan makes streaming exact. */
  lemma {:induction false} StreamedIsScan(text: string, secrets: seq<string>, mark: string)
    requires AllNonEmpty(secrets) && forall u :: OneShot(u, secrets, mark) == Scan(u, secrets, mark)
    ensures Streamed(text, secrets, mark) == Scan(text, secrets, mark)
    decreases |text|
  {
    if secrets == [] {
      EmptyScanCopies(text, mark);
    } else if |text| >= |secrets[0]| {
      StreamedIsScan(text[StepSize(text, secrets)..], secrets, mark);
    }
  }

  /** Streaming refines one-shot replacement: whatever the chunks, the streamed
      output is what replacing in the whole text gives. */
  lemma StreamingIsOneShot(text: string, secrets: seq<string>, mark: string)
    requires mark != "" && Normalized(secrets) && LaterUnaligned(secrets, mark) && NoConflict(secrets)
    ensures Streamed(text, secrets, mark) == OneShot(text, secrets, mark)
  {
    forall u ensures OneShot(u, secrets, mark) == Scan(u, secrets, mark) { OneShotIsScan(u, secrets, mark); }
    StreamedIsScan(text, secrets, mark);
  }

  /** One secret needs no side condition. */
  lemma {:induction false} SingleSecretStreaming(text: string, secret: string, mark: string)
    requires secret != ""
    ensures Streamed(text, [secret], mark) == OneShot(text, [secret], mark) == Replace(text, secret, mark)
  {
    forall u ensures OneShot(u, [secret], mark) == Scan(u, [secret], mark) == Replace(u, secret, mark) {
      SingleScan(u, secret, mark);
    }
    StreamedIsScan(text, [secret], mark);
  }

  lemma {:induction false} SingleScan(text: string, secret: string, mark: string)
    requires secret != ""
    ensures Scan(text, [secret], mark) == Replace(text, secret, mark) == OneShot(text, [secret], mark)
    decreases |text|
  {
    assert [secret][..0] == [] && OneShot(text, [], mark) == text;
    if text != "" {
      assert FirstMatch(text, 0, [secret]) == if OccursAt(text, 0, secret) then Some(secret) else None;
      SingleScan(text[StepSize(text, [secret])..], secret, mark);
    }
  }

  // ----- when streaming and one-shot replacement differ -----

  /** No secret but the first has a later one as a prefix. */
  predicate PrefixFree(secrets: seq<string>) {
    forall b, c | 1 <= b < c < |secrets| :: !(secrets[c] <= secrets[b])
  }

  /** Up to index `m` the output is the text, and there it ends or has a marker. */
  predicate CopiedUpTo(output: string, text: string, m: nat, mark: string) {
    0 < m <= |output| && m <= |text| && output[..m] == text[..m] && (m == |output| || OccursAt(output, m, mark))
  }

  /** Replacing a word that does not start the output keeps it a copy up to a marker,
      which stands no later than any occurrence that was copied. */
  lemma ReplaceKeepsCopy(output: string, text: string, m: nat, word: string, mark: string) returns (n: nat)
    requires mark != "" && word != "" && (m == |output| || Unaligned(word, mark))
    requires CopiedUpTo(output, text, m, mark) && !OccursAt(output, 0, word)
    ensures CopiedUpTo(Replace(output, word, mark), text, n, mark)
    ensures n == m || n + |word| <= m
    ensures forall i | 0 <= i < m && OccursAt(output, i, word) :: n <= i
  {
    if i :| 0 <= i < m && OccursAt(output, i, word) {
      n := Leftmost(output, word, i);
      StaysInCopy(output, m, n, word, mark);
      FirstIsMarked(output, n, word, mark);
      assert output[..n] == text[..n];
    } else {
      n := m;
      if m < |output| { KeepsToMarker(output, m, word, mark); } else { ReplaceCopies(output, word, mark, m); }
    }
  }

  lemma FirstIsMarked(output: string, n: nat, word: string, mark: string)
    requires word != "" && FirstAt(output, word, n)
    ensures n <= |Replace(output, word, mark)| && Replace(output, word, mark)[..n] == output[..n]
    ensures OccursAt(Replace(output, word, mark), n, mark)
  {
    ReplaceFirst(output, word, mark, n);
    var out := Replace(output, word, mark);
    assert out[n..n + |mark|] == mark;
  }

  lemma StaysInCopy(output: string, m: nat, i: nat, word: string, mark: string)
    requires mark != "" && word != "" && i < m <= |output| && OccursAt(output, i, word)
    requires m == |output| || (OccursAt(output, m, mark) && Unaligned(word, mark))
    ensures i + |word| <= m
  {
    if m < |output| { EndsBeforeMarker(output, m, i, word, mark); }
  }

  /** Where an unaligned word does not start before a marker, replacing it copies up to
      the marker and the marker. */
  lemma KeepsToMarker(output: string, m: nat, word: string, mark: string)
    requires mark != "" && word != "" && Unaligned(word, mark) && OccursAt(output, m, mark)
    requires forall i | 0 <= i < m :: !OccursAt(output, i, word)
    ensures |Replace(output, word, mark)| >= m && Replace(output, word, mark)[..m] == output[..m]
    ensures OccursAt(Replace(output, word, mark), m, mark)
  {
    var n := m + |mark|;
    forall i | 0 <= i < n ensures !OccursAt(output, i, word) {
      if OccursAt(output, i, word) { EndsBeforeMarker(output, m, i, word, mark); }
    }
    ReplaceCopies(output, word, mark, n);
    var out := Replace(output, word, mark);
    assert out[..n] == output[..n];
    assert out[..m] == out[..n][..m] == output[..m];
    assert out[m..n] == out[..n][m..] == output[m..n];
  }

  /** The text that tells the two apart: the later secret up to where the earlier one
      starts in it, the earlier one, and perhaps markers. */
  predicate Separates(text: string, secrets: seq<string>, a: nat, b: nat, d: nat, mark: string) {
    && mark != "" && Conflict(secrets, a, b, d)
    && |text| >= |secrets[0]| && secrets[b][..d] + secrets[a] <= text
    && (|text| > d + |secrets[a]| ==> OccursAt(text, d + |secrets[a]|, mark) && Unaligned(secrets[0], mark))
  }

  /** A word that starts the output is part of what was copied before the first marker,
      and so a prefix of every longer prefix of the text. */
  lemma HeadOfCopy(output: string, text: string, m: nat, word: string, mark: string, prefix: string)
    requires mark != "" && word != "" && (m == |output| || Unaligned(word, mark)) && CopiedUpTo(output, text, m, mark)
    requires prefix <= text
    ensures OccursAt(output, 0, word) ==> |word| <= m
    ensures OccursAt(output, 0, word) && |word| <= |prefix| ==> word <= prefix
  {
    if OccursAt(output, 0, word) {
      StaysInCopy(output, m, 0, word, mark);
      assert word == output[0..|word|] == text[..|word|];
    }
  }

  /** One-shot replacement never replaces at the start of the separating text, and
      once the earlier secret is done a marker hides it. */
  lemma {:induction false} StartIsKept(text: string, secrets: seq<string>, a: nat, b: nat, d: nat, mark: string, c: nat) returns (m: nat)
    requires Normalized(secrets) && LaterUnaligned(secrets, mark) && PrefixFree(secrets)
    requires Separates(text, secrets, a, b, d, mark) && c <= |secrets|
    ensures CopiedUpTo(OneShot(text, secrets[..c], mark), text, m, mark)
    ensures if c == 0 then m == d + |secrets[a]| else m <= d || (c <= a && m == d + |secrets[a]|)
  {
    if c == 0 {
      m := d + |secrets[a]|;
    } else {
      var i := StartIsKept(text, secrets, a, b, d, mark, c - 1);
      m := StepIsKept(OneShot(text, secrets[..c - 1], mark), text, secrets, a, b, d, mark, c - 1, i);
      OneShotStep(text, secrets, c - 1, mark);
    }
  }

  lemma OneShotStep(text: string, secrets: seq<string>, c: nat, mark: string)
    requires AllNonEmpty(secrets) && c < |secrets|
    ensures OneShot(text, secrets[..c + 1], mark) == Replace(OneShot(text, secrets[..c], mark), secrets[c], mark)
  {
    assert secrets[..c + 1][..c] == secrets[..c];
  }

  lemma StepIsKept(output: string, text: string, secrets: seq<string>, a: nat, b: nat, d: nat, mark: string, c: nat, i: nat)
    returns (m: nat)
    requires Normalized(secrets) && LaterUnaligned(secrets, mark) && PrefixFree(secrets)
    requires Separates(text, secrets, a, b, d, mark) && c < |secrets|
    requires CopiedUpTo(output, text, i, mark) && (i <= d || (c <= a && i == d + |secrets[a]|))
    requires c == 0 ==> output == text && i == d + |secrets[a]|
    ensures CopiedUpTo(Replace(output, secrets[c], mark), text, m, mark)
    ensures m <= d || (c < a && m == d + |secrets[a]|)
  {
    NotAtStart(output, text, secrets, a, b, d, mark, c, i);
    m := ReplaceKeepsCopy(output, text, i, secrets[c], mark);
    if c == a && i > d { EarlierStands(output, text, secrets, a, b, d, mark, i); }
    assert c < a ==> |secrets[c]| >= |secrets[a]|;
  }

  lemma EarlierStands(output: string, text: string, secrets: seq<string>, a: nat, b: nat, d: nat, mark: string, i: nat)
    requires Separates(text, secrets, a, b, d, mark) && CopiedUpTo(output, text, i, mark) && i == d + |secrets[a]|
    ensures OccursAt(output, d, secrets[a])
  {
    var joined := secrets[b][..d] + secrets[a];
    assert output[d..i] == text[d..i] == joined[d..i] == secrets[a];
  }

  lemma PrefixOfPrefix(a: string, b: string, c: string)
    ensures a <= b && b <= c ==> a <= c
  {
  }

  lemma NotAtStart(output: string, text: string, secrets: seq<string>, a: nat, b: nat, d: nat, mark: string, c: nat, i: nat)
    requires Normalized(secrets) && LaterUnaligned(secrets, mark) && PrefixFree(secrets)
    requires Separates(text, secrets, a, b, d, mark) && c < |secrets|
    requires CopiedUpTo(output, text, i, mark) && (i <= d || (c <= a && i == d + |secrets[a]|))
    requires c == 0 ==> output == text && i == d + |secrets[a]|
    ensures !OccursAt(output, 0, secrets[c]) && secrets[c] != "" && (i == |output| || Unaligned(secrets[c], mark))
  {
    var joined, front := secrets[b][..d] + secrets[a], secrets[b][..d];
    HeadOfCopy(output, text, i, secrets[c], mark, joined);
    HeadOfCopy(output, text, i, secrets[c], mark, front);
    PrefixOfPrefix(secrets[c], front, secrets[b]);
  }

  lemma {:induction false} FirstMatchIs(text: string, secrets: seq<string>, b: nat)
    requires b < |secrets| && OccursAt(text, 0, secrets[b]) && forall c | 0 <= c < b :: !OccursAt(text, 0, secrets[c])
    ensures FirstMatch(text, 0, secrets) == Some(secrets[b])
  {
    if b > 0 {
      assert !OccursAt(text, 0, secrets[0]);
      forall c | 0 <= c < b - 1 ensures !OccursAt(text, 0, secrets[1..][c]) { assert !OccursAt(text, 0, secrets[c + 1]); }
      FirstMatchIs(text, secrets[1..], b - 1);
    }
  }

  /** The scan takes the later secret at the start of the separating text. */
  lemma LaterIsTaken(text: string, secrets: seq<string>, a: nat, b: nat, d: nat, mark: string)
    requires Normalized(secrets) && LaterUnaligned(secrets, mark) && Separates(text, secrets, a, b, d, mark)
    ensures FirstMatch(text, 0, secrets) == Some(secrets[b])
  {
    var s, t := secrets[a], secrets[b];
    var joined := t[..d] + s;
    assert t <= joined by { assert t == t[..d] + t[d..]; }
    assert text[0..|t|] == t;
    assert CopiedUpTo(text, text, |joined|, mark);
    forall c | 0 <= c < b ensures !OccursAt(text, 0, secrets[c]) {
      HeadOfCopy(text, text, |joined|, secrets[c], mark, joined);
    }
    FirstMatchIs(text, secrets, b);
  }

  /** The marker repeats itself every `m` characters. */
  predicate Periodic(mark: string, m: nat) { forall k: nat | k + m < |mark| :: mark[k + m] == mark[k] }

  /** A marker that repeats the beginning of a word aligns with the word. */
  lemma {:induction false} PeriodicAligns(word: string, mark: string, m: nat, i: nat) returns (d: nat)
    requires 0 < m <= |word| && Periodic(mark, m) && i < |mark|
    requires forall k | 0 <= k < m && i + k < |mark| :: mark[i + k] == word[k]
    ensures d < |mark| && Aligned(word, mark, d)
    decreases |mark| - i
  {
    if i + m < |mark| { d := PeriodicAligns(word, mark, m, i + m); } else { d := i; }
  }

  /** A word that starts what stands between two markers, or behind which nothing stands,
      aligns with the marker. */
  lemma MarkersOverWord(output: string, m: nat, word: string, mark: string)
    requires mark != "" && OccursAt(output, 0, mark) && (m == |output| || OccursAt(output, m, mark))
    requires 0 < m <= |word| && m <= |output| && output[..m] == word[..m]
    ensures !Unaligned(word, mark)
  {
    assert forall k | 0 <= k < |mark| :: output[k] == output[0..|mark|][k] == mark[k];
    assert forall k | 0 <= k < m :: word[k] == word[..m][k] == output[..m][k] == output[k];
    if m < |output| {
      forall k: nat | k + m < |mark| ensures mark[k + m] == mark[k] {
        assert output[m + k] == output[m..m + |mark|][k] == mark[k];
      }
    }
    var d := PeriodicAligns(word, mark, m, 0);
    assert Aligned(word, mark, d);
  }

  /** The one-shot output starts with the later secret up to a marker, so not with a
      marker itself. */
  lemma StartNotMarked(text: string, secrets: seq<string>, a: nat, b: nat, d: nat, mark: string)
    requires Normalized(secrets) && LaterUnaligned(secrets, mark) && PrefixFree(secrets)
    requires Separates(text, secrets, a, b, d, mark)
    ensures !OccursAt(OneShot(text, secrets, mark), 0, mark)
  {
    var m := StartIsKept(text, secrets, a, b, d, mark, |secrets|);
    assert secrets[..|secrets|] == secrets;
    assert secrets[b][..d] <= text;
    if OccursAt(OneShot(text, secrets, mark), 0, mark) {
      MarkersOverWord(OneShot(text, secrets, mark), m, secrets[b], mark);
    }
  }

  /** A text in which a later secret hides an earlier one tells streaming and one-shot
      replacement apart. */
  lemma ConflictSeparates(text: string, secrets: seq<string>, a: nat, b: nat, d: nat, mark: string)
    requires Normalized(secrets) && LaterUnaligned(secrets, mark) && PrefixFree(secrets)
    requires Separates(text, secrets, a, b, d, mark)
    ensures Streamed(text, secrets, mark) != OneShot(text, secrets, mark)
  {
    LaterIsTaken(text, secrets, a, b, d, mark);
    StartsMarked(text, secrets, mark);
    StartNotMarked(text, secrets, a, b, d, mark);
  }

  lemma StartsMarked(text: string, secrets: seq<string>, mark: string)
    requires AllNonEmpty(secrets) && secrets != [] && |text| >= |secrets[0]|
    requires FirstMatch(text, 0, secrets).Some?
    ensures OccursAt(Streamed(text, secrets, mark), 0, mark)
  {
    assert Streamed(text, secrets, mark)[0..|mark|] == mark;
  }

  function Repeat(mark: string, n: nat): (r: string)
    requires mark != ""
    ensures |r| >= n && (n > 0 ==> mark <= r)
  {
    if n == 0 then "" else mark + Repeat(mark, n - 1)
  }

  lemma Separating(secrets: seq<string>, a: nat, b: nat, d: nat, mark: string) returns (text: string)
    requires mark != "" && Conflict(secrets, a, b, d)
    requires |secrets| == 2 || Unaligned(secrets[0], mark)
    ensures Separates(text, secrets, a, b, d, mark)
  {
    var joined := secrets[b][..d] + secrets[a];
    text := joined;
    if |joined| < |secrets[0]| {
      text := joined + Repeat(mark, |secrets[0]|);
      assert text[|joined|..|joined| + |mark|] == mark;
    }
  }

  /** The condition is exact, for any number of secrets of which none aligns with the
      marker and none but the first has a later one as a prefix. The first of two secrets
      may align. */
  lemma StreamingExactly(secrets: seq<string>, mark: string)
    requires mark != "" && Normalized(secrets) && LaterUnaligned(secrets, mark) && PrefixFree(secrets)
    requires |secrets| > 2 ==> Unaligned(secrets[0], mark)
    ensures (forall text :: Streamed(text, secrets, mark) == OneShot(text, secrets, mark)) <==> NoConflict(secrets)
  {
    if NoConflict(secrets) {
      forall text ensures Streamed(text, secrets, mark) == OneShot(text, secrets, mark) {
        StreamingIsOneShot(text, secrets, mark);
      }
    } else {
      var a: nat, b: nat, d: nat :| Conflict(secrets, a, b, d);
      var text := Separating(secrets, a, b, d, mark);
      ConflictSeparates(text, secrets, a, b, d, mark);
    }
  }

  /** Two secrets need no prefix condition, and the longer one may align. */
  lemma TwoSecretsExactly(s: string, t: string, mark: string)
    requires mark != "" && Normalized([s, t]) && Unaligned(t, mark)
    ensures (forall text :: Streamed(text, [s, t], mark) == OneShot(text, [s, t], mark)) <==> NoConflict([s, t])
  {
    StreamingExactly([s, t], mark);
  }

  /** Secrets that share no character with the marker need no condition on alignment. */
  lemma MarkerFreeExactly(secrets: seq<string>, mark: string)
    requires mark != "" && Normalized(secrets) && MarkerFree(secrets, mark) && PrefixFree(secrets)
    ensures (forall text :: Streamed(text, secrets, mark) == OneShot(text, secrets, mark)) <==> NoConflict(secrets)
  {
    MarkerFreeIsUnaligned(secrets, mark);
    StreamingExactly(secrets, mark);
  }

  /** The equality fails on the program's own marker: "xa" hides "abc". */
  lemma OverlapExample()
    ensures Streamed("xabc", ["abc", "xa"], REDACTION) != OneShot("xabc", ["abc", "xa"], REDACTION)
  {
    var secrets := ["abc", "xa"];
    assert secrets[1][..1] + secrets[0] == "xabc" && secrets[1][1..] == "a" == secrets[0][..1];
    assert "xabc"[0] != secrets[0][0];
    assert Conflict(secrets, 0, 1, 1);
    ConflictSeparates("xabc", secrets, 0, 1, 1, REDACTION);
  }

  /** Secrets that share a character with the marker break the equality too. */
  lemma MarkerExample()
    ensures Streamed("ab", ["ab", "E"], REDACTION) != OneShot("ab", ["ab", "E"], REDACTION)
  {
    var secrets := ["ab", "E"];
    assert "ab"[0..2] == "ab" && FirstMatch("ab", 0, secrets) == Some("ab") && "ab"[2..] == "";
    OneShotEmpty(secrets, REDACTION);
    assert Streamed("ab", secrets, REDACTION) == REDACTION;
    assert secrets[..1] == ["ab"] && ["ab"][..0] == [];
    assert OneShot("ab", ["ab"], REDACTION) == Replace("ab", "ab", REDACTION) == REDACTION;
    assert REDACTION == "[R" + "EDACTED]";
    ReplaceSkips("[R", "EDACTED]", "E", REDACTION);
    assert OccursAt("EDACTED]", 0, "E") by { assert "EDACTED]"[0..1] == "E"; }
    assert OneShot("ab", secrets, REDACTION)[2] == '[';
  }

  // ----- the order of secrets of one length, which the program leaves open -----

  lemma {:induction false} FirstMatchIsLongest(text: string, i: nat, secrets: seq<string>, t: string)
    requires Normalized(secrets) && t in secrets && OccursAt(text, i, t)
    ensures FirstMatch(text, i, secrets).Some? && |FirstMatch(text, i, secrets).value| >= |t|
  {
    if !OccursAt(text, i, secrets[0]) { FirstMatchIsLongest(text, i, secrets[1..], t); }
  }

  lemma FirstMatchIgnoresOrder(text: string, x: seq<string>, y: seq<string>)
    requires Normalized(x) && Normalized(y) && forall s :: s in x <==> s in y
    ensures FirstMatch(text, 0, x) == FirstMatch(text, 0, y)
  {
    var mx, my := FirstMatch(text, 0, x), FirstMatch(text, 0, y);
    if mx.Some? { FirstMatchIsLongest(text, 0, y, mx.value); }
    if my.Some? { FirstMatchIsLongest(text, 0, x, my.value); }
  }

  /** The scan does not depend on the order secrets of one length come in. */
  lemma {:induction false} ScanIgnoresOrder(text: string, x: seq<string>, y: seq<string>, mark: string)
    requires Normalized(x) && Normalized(y) && forall s :: s in x <==> s in y
    ensures Scan(text, x, mark) == Scan(text, y, mark)
    decreases |text|
  {
    if text != "" {
      FirstMatchIgnoresOrder(text, x, y);
      ScanIgnoresOrder(text[StepSize(text, x)..], x, y, mark);
    }
  }

  /** Hence neither does the redacted stream, unless secrets conflict. */
  lemma StreamIgnoresOrder(text: string, x: seq<string>, y: seq<string>, mark: string)
    requires mark != "" && Normalized(x) && Normalized(y) && forall s :: s in x <==> s in y
    requires LaterUnaligned(x, mark) && LaterUnaligned(y, mark) && NoConflict(x) && NoConflict(y)
    ensures Streamed(text, x, mark) == Streamed(text, y, mark)
  {
    StreamingIsOneShot(text, x, mark);
    StreamingIsOneShot(text, y, mark);
    OneShotIsScan(text, x, mark);
    OneShotIsScan(text, y, mark);
    ScanIgnoresOrder(text, x, y, mark);
  }

  /** With a conflict it can, in the tail. */
  lemma OrderExample()
    ensures Streamed("xab", ["long", "xa", "ab"], REDACTION) != Streamed("xab", ["long", "ab", "xa"], REDACTION)
  {
    LongFirst();
    TakesFirst();
    KeepsFirst();
  }

  lemma ShortKept(text: string, word: string, mark: string)
    requires |text| < |word|
    ensures Replace(text, word, mark) == text
  {
    ReplaceNone(text, word, mark);
  }

  lemma LongFirst()
    ensures OneShot("xab", ["long"], REDACTION) == "xab"
  {
    assert ["long"][..0] == [];
    ShortKept("xab", "long", REDACTION);
  }

  lemma TakesFirst()
    ensures OneShot("xab", ["long", "xa", "ab"], REDACTION) == REDACTION + "b"
  {
    var x := ["long", "xa", "ab"];
    assert x[..2] == ["long", "xa"] && x[..2][..1] == ["long"];
    LongFirst();
    assert "xa" + "b" == "xab";
    ReplaceHead("xa", "b", REDACTION);
    ShortKept("b", "xa", REDACTION);
    ReplaceSkips(REDACTION, "b", "ab", REDACTION);
    ShortKept("b", "ab", REDACTION);
  }

  lemma KeepsFirst()
    ensures var output := OneShot("xab", ["long", "ab", "xa"], REDACTION); output != "" && output[0] == 'x'
  {
    var y := ["long", "ab", "xa"];
    assert y[..2] == ["long", "ab"] && y[..2][..1] == ["long"];
    LongFirst();
    assert "xab"[0..2][0] == 'x';
    ReplaceMiss('x', "ab", "ab", REDACTION);
    assert "ab" + "" == "ab";
    ReplaceHead("ab", "", REDACTION);
    var after := ['x'] + (REDACTION + "");
    assert ['x'] + "ab" == "xab" && OneShot("xab", ["long", "ab"], REDACTION) == after;
    assert !OccursAt(after, 0, "xa") by { assert after[0..2][1] == '['; }
  }
}
