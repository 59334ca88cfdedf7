/** What the redactor of scripts/bounded_redact.py computes, as functions of the
    whole text: the one-shot replacement and the streaming scan. They are stated
    for any marker; the program's marker is REDACTION. */
module RedactionSpec {
  import opened Text

  const REDACTION := "[REDACTED]"

  predicate AllNonEmpty(secrets: seq<string>) {
    forall i | 0 <= i < |secrets| :: secrets[i] != ""
  }

  /** Longest secret first, no secret twice, none empty: the order the sorted
      tuple has. Secrets of one length come in any order. */
  predicate Normalized(secrets: seq<string>) {
    && AllNonEmpty(secrets)
    && (forall a, b | 0 <= a < b < |secrets| :: |secrets[a]| >= |secrets[b]| && secrets[a] != secrets[b])
  }

  ghost predicate Normalizes(secrets: seq<string>, configured: seq<string>) {
    && Normalized(secrets)
    && (forall s :: s in secrets <==> s in configured && s != "")
  }

  /** Replace every secret in turn, in the order given. */
  function OneShot(text: string, secrets: seq<string>, mark: string): string
    requires AllNonEmpty(secrets)
  {
    if secrets == [] then text
    else Replace(OneShot(text, secrets[..|secrets| - 1], mark), secrets[|secrets| - 1], mark)
  }

  /** A text that is not empty stays so. */
  lemma {:induction false} OneShotKeepsSome(text: string, secrets: seq<string>, mark: string)
    requires AllNonEmpty(secrets) && text != "" && mark != ""
    ensures OneShot(text, secrets, mark) != ""
  {
    if secrets != [] {
      OneShotKeepsSome(text, secrets[..|secrets| - 1], mark);
      ReplaceKeepsSome(OneShot(text, secrets[..|secrets| - 1], mark), secrets[|secrets| - 1], mark);
    }
  }

  lemma ReplaceKeepsSome(text: string, s: string, mark: string)
    requires s != "" && text != "" && mark != ""
    ensures Replace(text, s, mark) != ""
  {
  }

  /** The first secret of the tuple that stands at index `i`. */
  function FirstMatch(text: string, i: nat, secrets: seq<string>): (r: Option<string>)
    ensures r.Some? ==> r.value in secrets && OccursAt(text, i, r.value)
  {
    if secrets == [] then None
    else if OccursAt(text, i, secrets[0]) then Some(secrets[0])
    else FirstMatch(text, i, secrets[1..])
  }

  lemma {:induction false} NoMatch(text: string, i: nat, secrets: seq<string>, secret: string)
    requires FirstMatch(text, i, secrets).None? && secret in secrets
    ensures !OccursAt(text, i, secret)
  {
    if secret != secrets[0] { NoMatch(text, i, secrets[1..], secret); }
  }

  /** How many characters one step of a scan consumes, and what it yields. */
  function StepSize(text: string, secrets: seq<string>): (n: nat)
    requires AllNonEmpty(secrets) && text != ""
    ensures 0 < n <= |text|
  {
    match FirstMatch(text, 0, secrets) case None => 1 case Some(s) => |s|
  }

  function StepOutput(text: string, secrets: seq<string>, mark: string): string
    requires text != ""
  {
    if FirstMatch(text, 0, secrets).None? then [text[0]] else mark
  }

  /** Leftmost scan of the whole text, taking the first matching secret. */
  function Scan(text: string, secrets: seq<string>, mark: string): string
    requires AllNonEmpty(secrets)
  {
    if text == "" then ""
    else StepOutput(text, secrets, mark) + Scan(text[StepSize(text, secrets)..], secrets, mark)
  }

  /** The streamed output of the suffix `text`: a leftmost scan while a secret of
      full length still fits, then one-shot replacement of the tail. */
  function Streamed(text: string, secrets: seq<string>, mark: string): string
    requires AllNonEmpty(secrets)
  {
    if secrets == [] then text
    else if |text| < |secrets[0]| then OneShot(text, secrets, mark)
    else StepOutput(text, secrets, mark) + Streamed(text[StepSize(text, secrets)..], secrets, mark)
  }

  /** How many characters the streaming scan consumes before the tail. */
  function ScanStop(text: string, secrets: seq<string>): (n: nat)
    requires AllNonEmpty(secrets)
    ensures n <= |text|
  {
    if secrets == [] then |text|
    else if |text| < |secrets[0]| then 0
    else StepSize(text, secrets) + ScanStop(text[StepSize(text, secrets)..], secrets)
  }

  /** A match decided inside a window is the match decided on the whole text. */
  lemma {:induction false} MatchInWindow(window: string, i: nat, tail: string, secrets: seq<string>)
    requires forall s | s in secrets :: i + |s| <= |window|
    requires i <= |window|
    ensures FirstMatch(window, i, secrets) == FirstMatch(window[i..] + tail, 0, secrets)
  {
    if secrets != [] {
      var s := secrets[0];
      assert s in secrets;
      assert window[i..i + |s|] == (window[i..] + tail)[0..|s|];
      MatchInWindow(window, i, tail, secrets[1..]);
    }
  }

  ghost predicate StreamsTo(text: string, secrets: seq<string>, mark: string, output: string, stop: nat)
    requires AllNonEmpty(secrets)
  {
    output == Streamed(text, secrets, mark) && stop == ScanStop(text, secrets)
  }

  /** How far a scan has come: what it has yielded and consumed, and what the scan of
      the whole text yields and consumes. */
  datatype Progress = Progress(output: string, consumed: nat, total: string, stop: nat) {
    function Step(piece: string, n: nat): Progress { this.(output := output + piece, consumed := consumed + n) }
  }

  /** Scanning `rest` completes the output to the total, at the stop. */
  ghost predicate Partial(p: Progress, rest: string, secrets: seq<string>, mark: string)
    requires AllNonEmpty(secrets)
  {
    forall more: string, n: nat | StreamsTo(rest, secrets, mark, more, n) ::
      p.output + more == p.total && p.consumed + n == p.stop
  }

  lemma PartialStep(p: Progress, rest: string, secrets: seq<string>, mark: string)
    requires secrets != [] && AllNonEmpty(secrets) && |rest| >= |secrets[0]|
    requires Partial(p, rest, secrets, mark)
    ensures var n := StepSize(rest, secrets);
            Partial(p.Step(StepOutput(rest, secrets, mark), n), rest[n..], secrets, mark)
  {
    var n := StepSize(rest, secrets);
    assert StreamsTo(rest, secrets, mark, Streamed(rest, secrets, mark), ScanStop(rest, secrets));
    AppendAssociates(p.output, StepOutput(rest, secrets, mark), Streamed(rest[n..], secrets, mark));
  }

  lemma DropFront(a: string, b: string, n: nat)
    requires n <= |a|
    ensures (a + b)[n..] == a[n..] + b
  {
  }

  /** What is decided at index `i` of a window: how much is consumed, what is yielded. */
  predicate Decides(window: string, i: nat, secrets: seq<string>, mark: string, step: nat, piece: string)
    requires i < |window|
  {
    match FirstMatch(window, i, secrets)
    case None => step == 1 && piece == [window[i]]
    case Some(s) => step == |s| && piece == mark
  }

  /** A step of the scan inside a window that still holds a secret of full
      length is the step on the text that follows. */
  lemma WindowStep(p: Progress, window: string, i: nat, tail: string, secrets: seq<string>, mark: string, step: nat, piece: string)
    requires Normalized(secrets) && secrets != [] && i + |secrets[0]| <= |window|
    requires Decides(window, i, secrets, mark, step, piece)
    requires Partial(p, window[i..] + tail, secrets, mark)
    ensures 0 < step <= |secrets[0]|
    ensures Partial(p.Step(piece, step), window[i + step..] + tail, secrets, mark)
  {
    var rest := window[i..] + tail;
    MatchInWindow(window, i, tail, secrets);
    PartialStep(p, rest, secrets, mark);
    DropFront(window[i..], tail, step);
  }

  /** Without secrets the stream is copied. */
  lemma PartialCopy(p: Progress, chunk: string, rest: string, mark: string)
    requires Partial(p, chunk + rest, [], mark)
    ensures Partial(p.Step(chunk, |chunk|), rest, [], mark)
  {
    assert StreamsTo(chunk + rest, [], mark, chunk + rest, |chunk + rest|);
    AppendAssociates(p.output, chunk, rest);
  }

  lemma {:induction false} OneShotEmpty(secrets: seq<string>, mark: string)
    requires AllNonEmpty(secrets)
    ensures OneShot("", secrets, mark) == ""
  {
    if secrets != [] { OneShotEmpty(secrets[..|secrets| - 1], mark); }
  }

  lemma PartialEnd(p: Progress, rest: string, secrets: seq<string>, mark: string)
    requires AllNonEmpty(secrets) && Partial(p, rest, secrets, mark)
    requires secrets == [] || |rest| < |secrets[0]|
    ensures p.output + OneShot(rest, secrets, mark) == p.total
    ensures rest == "" ==> p.output == p.total
    ensures secrets != [] || rest == "" ==> p.consumed == p.stop
  {
    OneShotEmpty(secrets, mark);
    assert StreamsTo(rest, secrets, mark, Streamed(rest, secrets, mark), ScanStop(rest, secrets));
  }

  lemma AppendAssociates(a: string, b: string, c: string)
    ensures (a + b) + c == a + (b + c)
  {
  }

  // ----- secrets and the marker -----

  /** The secret, laid at offset `d` against the marker, overlaps it and agrees with it
      wherever they overlap. */
  predicate Aligned(s: string, mark: string, d: int) {
    -|s| < d < |mark| && forall k | 0 <= k < |s| && 0 <= d + k < |mark| :: s[k] == mark[d + k]
  }

  /** The secret overlaps the marker at no offset in agreement with it. */
  predicate Unaligned(s: string, mark: string) {
    forall d | -|s| < d < |mark| :: !Aligned(s, mark, d)
  }
}
