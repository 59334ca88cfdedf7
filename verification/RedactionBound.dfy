/** scripts/bounded_redact.py: normalised secrets, one-shot redaction and the
    bounded reader over the chunked redactor. */
module RedactionBound {
  import opened Basics
  import opened Text
  import opened RedactionSpec
  import opened RedactionStream
  import opened Streams

  datatype BoundError = MaxCharsNotPositive | ChunkCharsNotPositive

  /** Take a longest remaining secret until none is left. */
  method NormalizedSecrets(configured: seq<string>) returns (secrets: seq<string>)
    ensures Normalizes(secrets, configured)
  {
    var left := set s | s in configured && s != "";
    secrets := [];
    while left != {}
      invariant Normalized(secrets)
      invariant forall s :: s in secrets || s in left <==> s in configured && s != ""
      invariant forall s, t | s in secrets && t in left :: |s| >= |t| && s != t
      decreases left
    {
      LongestExists(left);
      var longest :| longest in left && forall t | t in left :: |t| <= |longest|;
      secrets, left := secrets + [longest], left - {longest};
    }
  }

  lemma LongestExists(words: set<string>)
    requires words != {}
    ensures exists longest :: longest in words && forall t | t in words :: |t| <= |longest|
  {
    var w :| w in words;
    if words != {w} {
      LongestExists(words - {w});
      var longest :| longest in words - {w} && forall t | t in words - {w} :: |t| <= |longest|;
      var best := if |w| > |longest| then w else longest;
      assert best in words && forall t | t in words :: |t| <= |best|;
    }
  }

  method RedactComplete(text: string, secrets: seq<string>) returns (redacted: string)
    requires AllNonEmpty(secrets)
    ensures redacted == OneShot(text, secrets, REDACTION)
  {
    redacted := text;
    for i := 0 to |secrets|
      invariant redacted == OneShot(text, secrets[..i], REDACTION)
    {
      assert secrets[..i + 1][..i] == secrets[..i];
      redacted := Replace(redacted, secrets[i], REDACTION);
    }
    assert secrets[..|secrets|] == secrets;
  }

  function TruncationNotice(maxChars: nat): string {
    "[diagnostics truncated; output capped at " + Decimal(maxChars) + " characters]\n"
  }

  function Truncated(redacted: string, notice: string, maxChars: nat): string {
    if |notice| >= maxChars then notice[..maxChars]
    else
      var limit := maxChars - |notice|;
      var prefix := redacted[..if |redacted| < limit then |redacted| else limit];
      (if prefix != "" && prefix[|prefix| - 1] != '\n' then prefix[..|prefix| - 1] + "\n" else prefix) + notice
  }

  /** The bounded form of an already redacted text. */
  function Bounded(redacted: string, maxChars: nat, sourceTruncated: bool): string {
    if !sourceTruncated && |redacted| <= maxChars then redacted
    else Truncated(redacted, TruncationNotice(maxChars), maxChars)
  }

  /** The bound is met, short texts are untouched, and a text that does not fit
      fills the bound exactly: its beginning, a newline, then the notice. */
  lemma BoundedShape(redacted: string, maxChars: nat)
    ensures |Bounded(redacted, maxChars, true)| <= maxChars && |Bounded(redacted, maxChars, false)| <= maxChars
    ensures |redacted| <= maxChars ==> Bounded(redacted, maxChars, false) == redacted
    ensures |redacted| > maxChars ==>
              var r, notice := Bounded(redacted, maxChars, false), TruncationNotice(maxChars);
              && |r| == maxChars
              && (|notice| >= maxChars ==> r <= notice)
              && (|notice| < maxChars ==>
                   var kept := maxChars - |notice|;
                   r[kept..] == notice && r[..kept - 1] == redacted[..kept - 1] && r[kept - 1] == '\n')
  {
    var notice := TruncationNotice(maxChars);
    TruncatedShape(redacted, notice, maxChars);
  }

  lemma TruncatedShape(redacted: string, notice: string, maxChars: nat)
    ensures |Truncated(redacted, notice, maxChars)| <= maxChars
    ensures |redacted| > maxChars ==>
              var r := Truncated(redacted, notice, maxChars);
              && |r| == maxChars
              && (|notice| >= maxChars ==> r <= notice)
              && (|notice| < maxChars ==>
                   var kept := maxChars - |notice|;
                   r[kept..] == notice && r[..kept - 1] == redacted[..kept - 1] && r[kept - 1] == '\n')
  {
  }

  /** The notice says what the bound is: between two fixed texts it has the bound's
      numeral, and so differs for different bounds. */
  lemma NoticeNamesBound(maxChars: nat)
    ensures exists digits ::
              && TruncationNotice(maxChars) == "[diagnostics truncated; output capped at " + digits + " characters]\n"
              && Digits(digits) && Numeral(digits) == maxChars
    ensures TruncationNotice(maxChars) != "" && Last(TruncationNotice(maxChars)) == '\n'
  {
    DecimalPrints(maxChars);
  }

  /** A text that does not fit, or whose source was cut, becomes its beginning, as much
      as fits, with its last character turned into a newline, and the notice; a notice
      that does not fit is itself cut. */
  lemma CutShape(redacted: string, maxChars: nat, sourceTruncated: bool)
    requires sourceTruncated || |redacted| > maxChars
    ensures var r, notice := Bounded(redacted, maxChars, sourceTruncated), TruncationNotice(maxChars);
            if |notice| >= maxChars then r <= notice && |r| == maxChars
            else
              var n := Min(|redacted|, maxChars - |notice|);
              && |r| == n + |notice| && r[n..] == notice
              && (n > 0 ==> r[..n - 1] == redacted[..n - 1] && r[n - 1] == '\n')
  {
    var notice := TruncationNotice(maxChars);
    if |notice| < maxChars { CutParts(redacted, notice, maxChars); }
  }

  lemma CutParts(redacted: string, notice: string, maxChars: nat)
    requires |notice| < maxChars
    ensures var r, n := Truncated(redacted, notice, maxChars), Min(|redacted|, maxChars - |notice|);
            && |r| == n + |notice| && r[n..] == notice
            && (n > 0 ==> r[..n - 1] == redacted[..n - 1] && r[n - 1] == '\n')
  {
    var r, n := Truncated(redacted, notice, maxChars), Min(|redacted|, maxChars - |notice|);
    var prefix := redacted[..n];
    if n > 0 {
      var front := if prefix[n - 1] != '\n' then prefix[..n - 1] + "\n" else prefix;
      assert r == front + notice && |front| == n;
      assert front[..n - 1] == redacted[..n - 1];
      assert r[..n - 1] == front[..n - 1];
    }
  }

  /** One character beyond the bound is enough to know the bounded result. */
  lemma CaptureSuffices(redacted: string, maxChars: nat)
    requires |redacted| > maxChars
    ensures Bounded(redacted[..maxChars + 1], maxChars, true) == Bounded(redacted, maxChars, false)
  {
    var notice := TruncationNotice(maxChars);
    if |notice| < maxChars {
      var limit := maxChars - |notice|;
      assert redacted[..maxChars + 1][..limit] == redacted[..limit];
    }
  }

  method RedactAndBound(text: string, configured: seq<string>, maxChars: int, sourceTruncated: bool)
    returns (r: Result<string, BoundError>)
    ensures maxChars <= 0 ==> r == Failure(MaxCharsNotPositive)
    ensures maxChars > 0 ==> exists secrets | Normalizes(secrets, configured) ::
              r == Success(Bounded(OneShot(text, secrets, REDACTION), maxChars, sourceTruncated))
    ensures maxChars > 0 && configured == [] ==> r == Success(Bounded(text, maxChars, sourceTruncated))
  {
    if maxChars <= 0 { return Failure(MaxCharsNotPositive); }
    var secrets := NormalizedSecrets(configured);
    if configured == [] { OnlyNone(secrets); }
    var redacted := RedactComplete(text, secrets);
    r := Success(Bounded(redacted, maxChars, sourceTruncated));
  }

  lemma SomeElement(words: seq<string>)
    ensures words != [] ==> exists w :: w in words
  {
    if words != [] { assert words[0] in words; }
  }

  lemma OnlyNone(secrets: seq<string>)
    requires Normalizes(secrets, [])
    ensures secrets == []
  {
    SomeElement(secrets);
  }

  /** `kept` says what one chunk adds to what is captured. */
  method Capture(captured: seq<string>, stored: nat, dropped: bool, text: string, maxChars: nat, ghost emitted: string)
    returns (kept: seq<string>, size: nat, overflow: bool)
    requires Captured(Join(captured), stored, dropped, emitted, maxChars)
    ensures Captured(Join(kept), size, overflow, emitted + text, maxChars)
  {
    CaptureStep(Join(captured), stored, dropped, emitted, text, maxChars);
    kept, size, overflow := captured, stored, dropped;
    var remaining := maxChars + 1 - stored;
    if remaining > 0 {
      var piece := text[..Min(|text|, remaining)];
      JoinAppend(captured, piece);
      kept, size := captured + [piece], stored + Min(|text|, remaining);
    }
    if |text| > Max(remaining, 0) { overflow := true; }
  }

  /** Keeps at most `maxChars + 1` characters of the redacted stream, yet returns
      what bounding the whole of it returns. `stored` counts the characters kept,
      `secrets` is the order the configured secrets were taken in. */
  method ReadRedactedBounded(stream: Stream<char>, configured: seq<string>, maxChars: int, chunkChars: int)
    returns (r: Result<string, BoundError>, stored: nat, ghost secrets: seq<string>)
    modifies stream
    ensures maxChars <= 0 ==> r == Failure(MaxCharsNotPositive)
    ensures maxChars > 0 && chunkChars <= 0 ==> r == Failure(ChunkCharsNotPositive)
    ensures maxChars > 0 && chunkChars > 0 ==>
              && stream.rest == "" && Normalizes(secrets, configured)
              && r == Success(Bounded(Streamed(old(stream.rest), secrets, REDACTION), maxChars, false))
              && stored == Min(|Streamed(old(stream.rest), secrets, REDACTION)|, maxChars + 1)
  {
    stored, secrets := 0, [];
    if maxChars <= 0 { return Failure(MaxCharsNotPositive), 0, []; }
    var normalized := NormalizedSecrets(configured);
    secrets := normalized;
    var chunks := new RedactedChunks(stream, normalized, chunkChars);
    var captured: seq<string> := [];
    var sourceTruncated := false;
    while true
      invariant fresh(chunks) && chunks.stream == stream && chunks.chunkChars == chunkChars
      invariant chunks.Valid() && (chunkChars <= 0 ==> !chunks.finished)
      invariant Captured(Join(captured), stored, sourceTruncated, chunks.emitted, maxChars)
      decreases chunks.Remaining()
    {
      ghost var before := chunks.emitted;
      var chunk := chunks.Next();
      if chunk.BadChunkSize? { return Failure(ChunkCharsNotPositive), stored, secrets; }
      if chunk.Exhausted? { break; }
      captured, stored, sourceTruncated := Capture(captured, stored, sourceTruncated, chunk.text, maxChars, before);
    }
    CapturedBounds(Join(captured), stored, chunks.emitted, maxChars);
    if stored > maxChars { sourceTruncated := true; }
    r := RedactAndBound(Join(captured), [], maxChars, sourceTruncated);
  }

  /** What was kept is the beginning of what was emitted, one character more
      than the bound at most; the flag says whether anything was dropped. */
  ghost predicate Captured(kept: string, stored: int, dropped: bool, emitted: string, maxChars: nat) {
    && stored == |kept| == Min(|emitted|, maxChars + 1)
    && kept == emitted[..stored]
    && (dropped <==> |emitted| > maxChars + 1)
  }

  lemma CaptureStep(kept: string, stored: int, dropped: bool, emitted: string, text: string, maxChars: nat)
    requires Captured(kept, stored, dropped, emitted, maxChars)
    ensures var taken := Min(|text|, maxChars + 1 - stored);
            Captured(kept + text[..taken], stored + taken, dropped || |text| > maxChars + 1 - stored,
                     emitted + text, maxChars)
  {
    var taken := Min(|text|, maxChars + 1 - stored);
    assert (emitted + text)[..stored + taken] == emitted[..stored] + text[..taken];
  }

  lemma CapturedBounds(kept: string, stored: int, emitted: string, maxChars: nat)
    requires Captured(kept, stored, |emitted| > maxChars + 1, emitted, maxChars)
    ensures Bounded(kept, maxChars, stored > maxChars) == Bounded(emitted, maxChars, false)
    ensures stored > maxChars <==> |emitted| > maxChars
  {
    if |emitted| > maxChars { CaptureSuffices(emitted, maxChars); }
  }
}
