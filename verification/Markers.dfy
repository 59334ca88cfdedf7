/** Counting a marker in a text and splitting at it, as the standard string type
    defines them. */
module Markers {
  import opened Text

  /** Non-overlapping occurrences, leftmost first. */
  function Count(text: string, word: string): nat
    requires word != ""
  {
    if text == "" then 0
    else if OccursAt(text, 0, word) then 1 + Count(text[|word|..], word)
    else Count(text[1..], word)
  }

  datatype Parts = Parts(before: string, after: string)

  /** The text before and after the first occurrence. */
  function Split(text: string, word: string): Option<Parts>
    requires word != ""
  {
    if text == "" then None
    else if OccursAt(text, 0, word) then Some(Parts("", text[|word|..]))
    else match Split(text[1..], word)
         case None => None
         case Some(p) => Some(Parts([text[0]] + p.before, p.after))
  }

  /** A text without the word is not split, any other at its first occurrence. */
  lemma {:induction false} SplitMeans(text: string, word: string)
    requires word != ""
    ensures Split(text, word).None? <==> !Contains(text, word)
    ensures Split(text, word).Some? ==>
              exists i: nat :: FirstAt(text, word, i) && Split(text, word) == Some(Parts(text[..i], text[i + |word|..]))
  {
    if text != "" && !OccursAt(text, 0, word) {
      ContainsBehind(text, word);
      SplitMeans(text[1..], word);
      if Split(text[1..], word).Some? {
        var i: nat :| FirstAt(text[1..], word, i) && Split(text[1..], word) == Some(Parts(text[1..][..i], text[1..][i + |word|..]));
        SplitBehind(text, word, i);
      }
    } else if text != "" {
      assert FirstAt(text, word, 0) && text[..0] == "";
    }
  }

  lemma ContainsBehind(text: string, word: string)
    requires word != "" && text != "" && !OccursAt(text, 0, word)
    ensures Contains(text, word) <==> Contains(text[1..], word)
  {
    forall i: nat ensures OccursAt(text[1..], i, word) <==> OccursAt(text, i + 1, word) { OccursLater(text, 1, i, word); }
    if i: nat :| i <= |text| && OccursAt(text, i, word) { assert OccursAt(text[1..], i - 1, word); }
  }

  lemma SplitBehind(text: string, word: string, i: nat)
    requires word != "" && text != "" && !OccursAt(text, 0, word) && FirstAt(text[1..], word, i)
    ensures FirstAt(text, word, i + 1) && Contains(text, word)
    ensures [text[0]] + text[1..][..i] == text[..i + 1] && text[1..][i + |word|..] == text[i + 1 + |word|..]
  {
    OccursLater(text, 1, i, word);
    forall k | 0 <= k < i + 1 ensures !OccursAt(text, k, word) {
      if k > 0 { OccursLater(text, 1, k - 1, word); }
    }
  }

  /** `c` stands in `text` at index `k` and nowhere else (nowhere if k is -1). */
  predicate Only(text: string, c: char, k: int) {
    -1 <= k < |text| && forall j | 0 <= j < |text| :: text[j] == c <==> j == k
  }

  predicate NoStraddle(a: string, b: string, word: string) {
    forall i: nat | i < |a| && |a| < i + |word| :: !OccursAt(a + b, i, word)
  }

  lemma {:induction false} CountZero(text: string, word: string)
    requires word != ""
    ensures Count(text, word) == 0 <==> !Contains(text, word)
  {
    if text != "" {
      if OccursAt(text, 0, word) {
      } else {
        CountZero(text[1..], word);
        if Contains(text, word) {
          var i: nat :| i <= |text| && OccursAt(text, i, word);
          OccursLater(text, 1, i - 1, word);
        }
        if Contains(text[1..], word) {
          var i: nat :| i <= |text| - 1 && OccursAt(text[1..], i, word);
          OccursLater(text, 1, i, word);
        }
      }
    }
  }

  lemma {:induction false} CountSplit(a: string, b: string, word: string)
    requires word != "" && NoStraddle(a, b, word)
    ensures Count(a + b, word) == Count(a, word) + Count(b, word)
    decreases |a|
  {
    if a == "" {
      assert a + b == b;
    } else {
      var n := if OccursAt(a + b, 0, word) then |word| else 1;
      assert n <= |a|;
      assert OccursAt(a + b, 0, word) <==> OccursAt(a, 0, word) by {
        if |word| <= |a| { assert (a + b)[..|word|] == a[..|word|]; }
      }
      assert (a + b)[n..] == a[n..] + b;
      forall i: nat | i < |a[n..]| && |a[n..]| < i + |word|
        ensures !OccursAt(a[n..] + b, i, word)
      {
        assert !OccursAt(a + b, n + i, word);
        OccursLater(a + b, n, i, word);
      }
      CountSplit(a[n..], b, word);
    }
  }

  lemma ContainsSplit(a: string, b: string, word: string)
    requires word != "" && NoStraddle(a, b, word)
    ensures Contains(a + b, word) <==> Contains(a, word) || Contains(b, word)
  {
    CountSplit(a, b, word);
    CountZero(a + b, word);
    CountZero(a, word);
    CountZero(b, word);
  }

  /** A text with one `<`, counted for a word with one `<`. */
  lemma {:induction false} CountOneAngle(text: string, p: int, word: string, o: nat)
    requires Only(text, '<', p) && Only(word, '<', o)
    ensures Count(text, word) == if p >= o && OccursAt(text, p - o, word) then 1 else 0
  {
    if text == "" {
    } else if OccursAt(text, 0, word) {
      assert text[..|word|][o] == word[o] && p == o;
      CountOneAngle(text[|word|..], -1, word, o);
    } else {
      CountOneAngle(text[1..], if p >= 1 then p - 1 else -1, word, o);
      if p > o { OccursLater(text, 1, p - o - 1, word); }
    }
  }

  lemma OccursChar(text: string, i: nat, word: string, j: nat)
    requires j < |word|
    ensures OccursAt(text, i, word) ==> text[i + j] == word[j]
  {
    if OccursAt(text, i, word) { assert text[i..i + |word|][j] == text[i + j]; }
  }

  lemma NoSelfOverlap(text: string, i: nat, word: string)
    requires word != "" && Only(word, word[0], 0)
    ensures OccursAt(text, 0, word) && 0 < i < |word| ==> !OccursAt(text, i, word)
  {
    if 0 < i < |word| {
      OccursChar(text, i, word, 0);
      OccursChar(text, 0, word, i);
    }
  }

  /** A marker whose first character does not come back cannot overlap itself: if
      it is counted once, the text splits at its only occurrence. */
  lemma {:induction false} SplitOnly(text: string, i: nat, word: string)
    requires word != "" && Only(word, word[0], 0) && Count(text, word) == 1 && OccursAt(text, i, word)
    ensures Split(text, word) == Some(Parts(text[..i], text[i + |word|..]))
  {
    NoSelfOverlap(text, i, word);
    if OccursAt(text, 0, word) {
      if i > 0 {
        OccursBehind(text, |word|, i, word);
        CountZero(text[|word|..], word);
      }
    } else {
      OccursBehind(text, 1, i, word);
      SplitOnly(text[1..], i - 1, word);
      assert [text[0]] + text[1..][..i - 1] == text[..i];
      assert text[1..][i - 1 + |word|..] == text[i + |word|..];
    }
  }

  lemma CutAfterNewline(a: string, b: string, word: string, k: int)
    requires a != "" && a[|a| - 1] == '\n' && Only(word, '\n', k)
    requires 0 <= k < |word| - 1 && b != "" ==> b[0] != word[k + 1]
    ensures NoStraddle(a, b, word)
  {
    forall i: nat | i < |a| && |a| < i + |word| ensures !OccursAt(a + b, i, word) {
      OccursChar(a + b, i, word, |a| - 1 - i);
      OccursChar(a + b, i, word, |a| - i);
    }
  }

  lemma CutBeforeNewline(a: string, b: string, word: string, k: int)
    requires b != "" && b[0] == '\n' && Only(word, '\n', k)
    requires k > 0 && a != "" ==> a[|a| - 1] != word[k - 1]
    ensures NoStraddle(a, b, word)
  {
    forall i: nat | i < |a| && |a| < i + |word| ensures !OccursAt(a + b, i, word) {
      OccursChar(a + b, i, word, |a| - 1 - i);
      OccursChar(a + b, i, word, |a| - i);
    }
  }
}
