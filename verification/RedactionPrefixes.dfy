/** A conflict need not make a difference when a later secret is a prefix of an
    earlier one. */
module RedactionPrefixes {
  import opened Text
  import opened RedactionSpec
  import opened RedactionRefinement

  const SECRETS := ["ab", "xa", "b", "x"]

  predicate Plain(mark: string) { mark != "" && 'a' !in mark && 'b' !in mark && 'x' !in mark }

  /** The one-shot replacement of these secrets, one after the other. */
  function Replaced(text: string, mark: string): string {
    Rest(Replace(text, "ab", mark), mark)
  }

  function Rest(text: string, mark: string): string {
    Replace(Replace(Replace(text, "xa", mark), "b", mark), "x", mark)
  }

  lemma ReplacedIsOneShot(text: string, mark: string)
    ensures OneShot(text, SECRETS, mark) == Replaced(text, mark)
  {
    assert SECRETS[..3][..2][..1] == ["ab"] && SECRETS[..3][..2] == ["ab", "xa"] && SECRETS[..3] == ["ab", "xa", "b"];
    assert ["ab"][..0] == [] && ["ab", "xa"][..1] == ["ab"] && ["ab", "xa", "b"][..2] == ["ab", "xa"];
    assert OneShot(text, ["ab"], mark) == Replace(text, "ab", mark);
    assert OneShot(text, ["ab", "xa"], mark) == Replace(Replace(text, "ab", mark), "xa", mark);
    assert OneShot(text, ["ab", "xa", "b"], mark) == Replace(Replace(Replace(text, "ab", mark), "xa", mark), "b", mark);
  }

  lemma RestSkipsMark(text: string, mark: string)
    requires Plain(mark)
    ensures Rest(mark + text, mark) == mark + Rest(text, mark)
  {
    ReplaceSkips(mark, text, "xa", mark);
    ReplaceSkips(mark, Replace(text, "xa", mark), "b", mark);
    ReplaceSkips(mark, Replace(Replace(text, "xa", mark), "b", mark), "x", mark);
  }

  /** One character that no "xa" starts at. */
  lemma RestOfOne(c: char, text: string, mark: string)
    requires Plain(mark) && (c == 'x' ==> text == "" || text[0] != 'a')
    ensures Rest([c] + text, mark) == (if c == 'b' || c == 'x' then mark else [c]) + Rest(text, mark)
  {
    var t1 := Replace(text, "xa", mark);
    var t2 := Replace(t1, "b", mark);
    assert !OccursAt([c] + text, 0, "xa") by { assert |text| > 0 ==> ([c] + text)[0..2] == [c, text[0]]; }
    ReplaceMiss(c, text, "xa", mark);
    if c == 'b' {
      ReplaceHead("b", t1, mark);
      ReplaceSkips(mark, t2, "x", mark);
    } else {
      assert ([c] + t1)[0..1] == [c];
      ReplaceMiss(c, t1, "b", mark);
      if c == 'x' {
        ReplaceHead("x", t2, mark);
      } else {
        assert ([c] + t2)[0..1] == [c];
        ReplaceMiss(c, t2, "x", mark);
      }
    }
  }

  lemma RestOfPair(text: string, mark: string)
    requires Plain(mark)
    ensures Rest("xa" + text, mark) == mark + Rest(text, mark)
  {
    ReplaceHead("xa", text, mark);
    var t1 := Replace(text, "xa", mark);
    ReplaceSkips(mark, t1, "b", mark);
    ReplaceSkips(mark, Replace(t1, "b", mark), "x", mark);
  }

  lemma FirstOfPairs(text: string, mark: string)
    requires Plain(mark)
    ensures var more := Replace(text, "ab", mark);
            (more == "" <==> text == "") && (more != "" && more[0] == 'a' ==> text[0] == 'a' && !OccursAt(text, 0, "ab"))
  {
  }

  /** What the scan takes at the start. */
  lemma FirstOfScan(text: string)
    requires text != ""
    ensures FirstMatch(text, 0, SECRETS) ==
            if OccursAt(text, 0, "ab") then Some("ab") else if OccursAt(text, 0, "xa") then Some("xa")
            else if text[0] == 'b' then Some("b") else if text[0] == 'x' then Some("x") else None
  {
    assert SECRETS[1..] == ["xa", "b", "x"] && SECRETS[1..][1..] == ["b", "x"] && SECRETS[1..][1..][1..] == ["x"];
    assert text[0..1] == [text[0]];
    assert ["b", "x"][1..] == ["x"] && ["x"][1..] == [];
    assert FirstMatch(text, 0, ["x"]) == if text[0] == 'x' then Some("x") else None;
    assert FirstMatch(text, 0, ["b", "x"]) == if text[0] == 'b' then Some("b") else FirstMatch(text, 0, ["x"]);
  }

  lemma {:induction false} ReplacedIsScan(text: string, mark: string)
    requires Plain(mark)
    ensures Replaced(text, mark) == Scan(text, SECRETS, mark)
    decreases |text|
  {
    if text != "" {
      FirstOfScan(text);
      if OccursAt(text, 0, "ab") {
        ReplacedIsScan(text[2..], mark);
        RestSkipsMark(Replace(text[2..], "ab", mark), mark);
      } else if OccursAt(text, 0, "xa") {
        if OccursAt(text, 1, "ab") {
          ReplacedIsScan(text[3..], mark);
          HiddenPair(text, mark);
        } else {
          ReplacedIsScan(text[2..], mark);
          OpenPair(text, mark);
        }
      } else {
        ReplacedIsScan(text[1..], mark);
        FirstOfPairs(text[1..], mark);
        assert text[0] == 'x' && |text| > 1 ==> text[0..2] == ['x', text[1]];
        RestOfOne(text[0], Replace(text[1..], "ab", mark), mark);
      }
    }
  }

  /** Replacing "ab" behind an "x" that starts none. */
  lemma FirstBehindX(text: string, mark: string)
    requires text != "" && text[0] == 'x'
    ensures Replace(text, "ab", mark) == ['x'] + Replace(text[1..], "ab", mark)
  {
    assert !OccursAt(text, 0, "ab") by { assert |text| > 1 ==> text[0..2][0] == 'x'; }
  }

  lemma ScanOfPair(text: string, mark: string)
    requires OccursAt(text, 0, "xa")
    ensures Scan(text, SECRETS, mark) == mark + Scan(text[2..], SECRETS, mark)
  {
    assert text[0..2] == "xa" && !OccursAt(text, 0, "ab");
    FirstOfScan(text);
  }

  lemma ScanOfEnd(text: string, mark: string)
    requires text != "" && text[0] == 'b'
    ensures Scan(text, SECRETS, mark) == mark + Scan(text[1..], SECRETS, mark)
  {
    assert !OccursAt(text, 0, "ab") && !OccursAt(text, 0, "xa") by { assert |text| > 1 ==> text[0..2][0] == 'b'; }
    FirstOfScan(text);
  }

  lemma HeadAndRest(text: string, word: string)
    requires OccursAt(text, 0, word)
    ensures text == word + text[|word|..]
  {
    assert text[0..|word|] == text[..|word|] == word;
  }

  lemma MissA(text: string, mark: string)
    requires text != "" && text[0] == 'a' && !OccursAt(text, 0, "ab")
    ensures Replace(text, "ab", mark) == ['a'] + Replace(text[1..], "ab", mark)
  {
  }

  /** Replacing "ab" in "xab", and in an "xa" that no "b" follows. */
  lemma HiddenReplaced(text: string, mark: string)
    requires OccursAt(text, 0, "xa") && OccursAt(text, 1, "ab")
    ensures Replace(text, "ab", mark) == ['x'] + (mark + Replace(text[3..], "ab", mark))
  {
    assert text[0..2] == "xa";
    FirstBehindX(text, mark);
    OccursLater(text, 1, 0, "ab");
    HeadAndRest(text[1..], "ab");
    assert text[1..][2..] == text[3..];
    ReplaceHead("ab", text[3..], mark);
  }

  lemma OpenReplaced(text: string, mark: string)
    requires OccursAt(text, 0, "xa") && !OccursAt(text, 1, "ab")
    ensures Replace(text, "ab", mark) == "xa" + Replace(text[2..], "ab", mark)
  {
    assert text[0..2] == "xa";
    FirstBehindX(text, mark);
    OccursLater(text, 1, 0, "ab");
    MissA(text[1..], mark);
    assert text[1..][1..] == text[2..];
    assert ['x'] + (['a'] + Replace(text[2..], "ab", mark)) == "xa" + Replace(text[2..], "ab", mark);
  }

  /** "xab": the scan takes "xa" and then "b", the replacements "ab" and then "x". */
  lemma HiddenPair(text: string, mark: string)
    requires Plain(mark) && OccursAt(text, 0, "xa") && OccursAt(text, 1, "ab")
    requires Replaced(text[3..], mark) == Scan(text[3..], SECRETS, mark)
    ensures Replaced(text, mark) == Scan(text, SECRETS, mark)
  {
    var more := Replace(text[3..], "ab", mark);
    HiddenReplaced(text, mark);
    RestOfOne('x', mark + more, mark);
    RestSkipsMark(more, mark);
    ScanOfPair(text, mark);
    assert text[1..3][1] == text[2] == 'b';
    ScanOfEnd(text[2..], mark);
    assert text[2..][1..] == text[3..];
  }

  lemma OpenPair(text: string, mark: string)
    requires Plain(mark) && OccursAt(text, 0, "xa") && !OccursAt(text, 1, "ab")
    requires Replaced(text[2..], mark) == Scan(text[2..], SECRETS, mark)
    ensures Replaced(text, mark) == Scan(text, SECRETS, mark)
  {
    OpenReplaced(text, mark);
    RestOfPair(Replace(text[2..], "ab", mark), mark);
    ScanOfPair(text, mark);
  }

  /** These secrets conflict, and yet streaming equals one-shot replacement on every
      text: "x" is a prefix of "xa", and "b" ends what "xa" leaves of "ab". */
  lemma ConflictWithoutDifference(mark: string)
    requires Plain(mark)
    ensures Normalized(SECRETS) && Conflict(SECRETS, 0, 1, 1) && !PrefixFree(SECRETS)
    ensures forall text :: Streamed(text, SECRETS, mark) == OneShot(text, SECRETS, mark)
  {
    assert "xa"[1..] == "a" && "xa"[..1] + "ab" == "xab" && "ab"[..1] == "a";
    assert "ab"[0] != "xab"[0];
    assert SECRETS[3] <= SECRETS[1];
    forall u ensures OneShot(u, SECRETS, mark) == Scan(u, SECRETS, mark) {
      ReplacedIsOneShot(u, mark);
      ReplacedIsScan(u, mark);
    }
    forall text ensures Streamed(text, SECRETS, mark) == OneShot(text, SECRETS, mark) {
      StreamedIsScan(text, SECRETS, mark);
    }
  }
}
