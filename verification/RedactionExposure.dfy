/** When a marker can complete the secret it replaced. */
module RedactionExposure {
  import opened Text
  import opened RedactionSpec
  import opened RedactionRefinement

  /** The secret aligns with the marker; where it starts before the marker, its part in
      front, followed by the secret, does not contain the secret earlier. */
  predicate Exposed(s: string, mark: string) {
    exists d | -|s| < d < |mark| :: Aligned(s, mark, d) && (d < 0 ==> FirstAt(s[..-d] + s, s, -d))
  }

  /** A secret in the output is exposed: it overlaps a marker where it aligns, and what
      it has in front of the first marker was copied. */
  lemma {:induction false} AppearsExposed(text: string, s: string, mark: string, j: nat)
    requires s != "" && OccursAt(Replace(text, s, mark), j, s)
    ensures Exposed(s, mark)
    decreases |text|
  {
    if text != "" {
      var out := Replace(text, s, mark);
      if OccursAt(text, 0, s) {
        if j < |mark| {
          assert forall k | 0 <= k < |s| :: s[k] == out[j..j + |s|][k] == out[j + k];
          assert Aligned(s, mark, j);
        } else {
          OccursBehind(out, |mark|, j, s);
          AppearsExposed(text[|s|..], s, mark, j - |mark|);
        }
      } else if j > 0 {
        OccursBehind(out, 1, j, s);
        AppearsExposed(text[1..], s, mark, j - 1);
      } else {
        AppearsInFront(text, s, mark);
      }
    }
  }

  lemma FrontFirst(text: string, s: string, m: nat)
    requires FirstAt(text, s, m) && m < |s| && s[..m] == text[..m]
    ensures FirstAt(s[..m] + s, s, m)
  {
    var joined := s[..m] + s;
    assert joined == text[..m + |s|] by { assert text[m..m + |s|] == s; }
    assert joined[m..m + |s|] == s;
    forall i | 0 <= i < m ensures !OccursAt(joined, i, s) {
      assert !OccursAt(text, i, s);
      assert joined[i..i + |s|] == text[i..i + |s|];
    }
  }

  /** The secret at the start of copied text, a marker and more. */
  lemma FrontAligned(front: string, mark: string, more: string, s: string)
    requires OccursAt(front + (mark + more), 0, s) && |front| < |s|
    requires -|s| < -|front| < |mark|
    ensures Aligned(s, mark, -|front|) && s[..|front|] == front
  {
    var out := front + (mark + more);
    forall k | 0 <= k < |s| ensures s[k] == out[k] { assert out[0..|s|][k] == out[k]; }
    forall k | 0 <= k < |s| && 0 <= k - |front| < |mark| ensures s[k] == mark[k - |front|] {
      assert out[k] == mark[k - |front|];
    }
    assert s[..|front|] == front;
  }

  lemma AppearsInFront(text: string, s: string, mark: string)
    requires s != "" && OccursAt(Replace(text, s, mark), 0, s) && !OccursAt(text, 0, s)
    ensures Exposed(s, mark)
  {
    var out := Replace(text, s, mark);
    if !Contains(text, s) { ReplaceNone(text, s, mark); }
    var n: nat :| n <= |text| && OccursAt(text, n, s);
    var m := Leftmost(text, s, n);
    var more := Replace(text[m + |s|..], s, mark);
    ReplaceFirst(text, s, mark, m);
    if m >= |s| { CopiedFront(text, m, mark + more, s); }
    FrontAligned(text[..m], mark, more, s);
    FrontFirst(text, s, m);
  }

  lemma CopiedFront(text: string, m: nat, more: string, s: string)
    requires |s| <= m <= |text|
    ensures OccursAt(text[..m] + more, 0, s) <==> OccursAt(text, 0, s)
  {
    assert text[0..|s|] == (text[..m] + more)[0..|s|];
  }

  /** An aligned secret is spelled by its part in front, the marker and its part past
      the marker. */
  lemma Spelled(s: string, mark: string, d: int, front: string, past: string)
    requires Aligned(s, mark, d)
    requires front == if d < 0 then s[..-d] else ""
    requires past == if |mark| - d < |s| then s[|mark| - d..] else ""
    ensures Contains(front + (mark + past), s)
  {
    var out, j := front + (mark + past), if d < 0 then 0 else d;
    assert j + |s| <= |out|;
    forall k | 0 <= k < |s| ensures out[j + k] == s[k] {
      if d + k < 0 {
        assert out[j + k] == front[k];
      } else if d + k < |mark| {
        assert out[j + k] == mark[d + k];
      } else {
        assert out[j + k] == past[d + k - |mark|];
      }
    }
    assert out[j..j + |s|] == s;
    assert OccursAt(out, j, s);
  }

  lemma ReplaceBetween(front: string, s: string, past: string, mark: string)
    requires s != "" && |past| < |s| && (front == "" || FirstAt(front + s, s, |front|))
    ensures Replace(front + s + past, s, mark) == front + (mark + past)
  {
    var text, m := front + s + past, |front|;
    assert text[m..m + |s|] == s && text[m + |s|..] == past;
    forall i | 0 <= i < m ensures !OccursAt(text, i, s) {
      assert !OccursAt(front + s, i, s);
      assert text[i..i + |s|] == (front + s)[i..i + |s|];
    }
    ReplaceFirst(text, s, mark, m);
    ReplaceNone(past, s, mark);
    assert text[..m] == front;
  }

  /** An exposed secret appears: in front of its own replacement stands the part before
      the marker, behind it the part after. */
  lemma ExposedAppears(s: string, mark: string) returns (text: string)
    requires s != "" && Exposed(s, mark)
    ensures Contains(Replace(text, s, mark), s)
  {
    var d :| -|s| < d < |mark| && Aligned(s, mark, d) && (d < 0 ==> FirstAt(s[..-d] + s, s, -d));
    var front := if d < 0 then s[..-d] else "";
    var past := if |mark| - d < |s| then s[|mark| - d..] else "";
    text := front + s + past;
    ReplaceBetween(front, s, past, mark);
    Spelled(s, mark, d, front, past);
  }

  /** A secret redacted alone can appear in some redacted stream if and only if it is
      exposed to the marker. */
  lemma ExposureExactly(s: string, mark: string)
    requires s != ""
    ensures (exists text :: Contains(Streamed(text, [s], mark), s)) <==> Exposed(s, mark)
  {
    forall text | Contains(Streamed(text, [s], mark), s) ensures Exposed(s, mark) {
      SingleSecretStreaming(text, s, mark);
      var j: nat :| j <= |Replace(text, s, mark)| && OccursAt(Replace(text, s, mark), j, s);
      AppearsExposed(text, s, mark, j);
    }
    if Exposed(s, mark) {
      var text := ExposedAppears(s, mark);
      SingleSecretStreaming(text, s, mark);
    }
  }
}
