/** String primitives shared by the models: occurrences, concatenation and
    left-to-right replacement as the standard string type defines them. */
module Text {

  datatype Option<+T> = None | Some(value: T)

  datatype Result<+T, +E> = Success(value: T) | Failure(error: E)

  /** `word` stands in `text` from index `i` on. */
  predicate OccursAt(text: string, i: nat, word: string) {
    i + |word| <= |text| && text[i..i + |word|] == word
  }

  predicate Contains(text: string, word: string) {
    exists i: nat | i <= |text| :: OccursAt(text, i, word)
  }

  function Join(parts: seq<string>): string {
    if parts == [] then "" else Join(parts[..|parts| - 1]) + parts[|parts| - 1]
  }

  lemma JoinAppend(parts: seq<string>, part: string)
    ensures Join(parts + [part]) == Join(parts) + part
  {
    assert (parts + [part])[..|parts|] == parts;
  }

  /** Replace the non-overlapping occurrences of `word`, leftmost first. */
  function Replace(text: string, word: string, mark: string): string
    requires word != ""
  {
    if text == "" then ""
    else if OccursAt(text, 0, word) then mark + Replace(text[|word|..], word, mark)
    else [text[0]] + Replace(text[1..], word, mark)
  }

  lemma OccursBehind(text: string, n: nat, i: nat, word: string)
    requires n <= i && OccursAt(text, i, word)
    ensures OccursAt(text[n..], i - n, word)
  {
    assert text[n..][i - n..i - n + |word|] == text[i..i + |word|];
  }

  predicate FirstAt(text: string, s: string, m: nat) {
    OccursAt(text, m, s) && forall i | 0 <= i < m :: !OccursAt(text, i, s)
  }

  lemma OccursLater(text: string, n: nat, i: nat, word: string)
    requires n <= |text|
    ensures OccursAt(text[n..], i, word) <==> OccursAt(text, n + i, word)
  {
    if n + i + |word| <= |text| { assert text[n..][i..i + |word|] == text[n + i..n + i + |word|]; }
  }

  lemma ReplaceStep(text: string, s: string, mark: string, front: string, more: string)
    requires s != "" && text != "" && !OccursAt(text, 0, s) && Replace(text[1..], s, mark) == front + more
    ensures Replace(text, s, mark) == ([text[0]] + front) + more
  {
    assert [text[0]] + (front + more) == ([text[0]] + front) + more;
  }

  /** Where no occurrence starts, replacing copies. */
  lemma {:induction false} ReplaceCopies(text: string, s: string, mark: string, n: nat)
    requires s != "" && n <= |text| && forall i | 0 <= i < n :: !OccursAt(text, i, s)
    ensures Replace(text, s, mark) == text[..n] + Replace(text[n..], s, mark)
  {
    if n == 0 {
      assert text[0..] == text && text[..0] == "";
    } else {
      forall i | 0 <= i < n - 1 ensures !OccursAt(text[1..], i, s) {
        OccursLater(text, 1, i, s);
      }
      ReplaceCopies(text[1..], s, mark, n - 1);
      assert text[1..][n - 1..] == text[n..];
      ReplaceStep(text, s, mark, text[1..][..n - 1], Replace(text[n..], s, mark));
      assert [text[0]] + text[1..][..n - 1] == text[..n];
    }
  }

  lemma ReplaceFirst(text: string, s: string, mark: string, m: nat)
    requires s != "" && FirstAt(text, s, m)
    ensures Replace(text, s, mark) == text[..m] + (mark + Replace(text[m + |s|..], s, mark))
  {
    ReplaceCopies(text, s, mark, m);
    OccursBehind(text, m, m, s);
    assert text[m..][|s|..] == text[m + |s|..];
  }

  lemma ReplaceNone(text: string, s: string, mark: string)
    requires s != "" && !Contains(text, s)
    ensures Replace(text, s, mark) == text
  {
    ReplaceCopies(text, s, mark, |text|);
    assert text[..|text|] == text;
  }

  lemma {:induction false} Leftmost(text: string, s: string, n: nat) returns (m: nat)
    requires OccursAt(text, n, s)
    ensures m <= n && FirstAt(text, s, m)
  {
    if i :| 0 <= i < n && OccursAt(text, i, s) { m := Leftmost(text, s, i); } else { m := n; }
  }

  function Decimal(n: nat): (digits: string)
    ensures digits != ""
  {
    var last := ['0' + (n % 10) as char];
    if n < 10 then last else Decimal(n / 10) + last
  }

  predicate Digit(c: char) { '0' <= c <= '9' }

  /** `n` hexadecimal digits in lower case. */
  predicate HexString(s: string, n: nat) {
    |s| == n && forall i | 0 <= i < n :: Digit(s[i]) || 'a' <= s[i] <= 'f'
  }

  lemma HexStringMeans(s: string, n: nat)
    ensures HexString(s, n) <==> |s| == n && forall i | 0 <= i < n :: s[i] in "0123456789" + "abcdef"
  {
    var digits := "0123456789" + "abcdef";
    assert forall c: char :: c in digits <==> Digit(c) || 'a' <= c <= 'f';
  }

  lemma {:induction false} DecimalDigits(n: nat)
    ensures forall c | c in Decimal(n) :: Digit(c)
  {
    if n >= 10 { DecimalDigits(n / 10); }
  }

  predicate Digits(s: string) { s != "" && forall i | 0 <= i < |s| :: Digit(s[i]) }

  /** The number a numeral stands for. */
  function Numeral(s: string): nat {
    if s == "" then 0
    else Numeral(s[..|s| - 1]) * 10 + if Digit(s[|s| - 1]) then (s[|s| - 1] - '0') as nat else 0
  }

  /** A number is printed as its numeral, without leading zeros. */
  lemma {:induction false} DecimalPrints(n: nat)
    ensures Digits(Decimal(n)) && Numeral(Decimal(n)) == n && (Decimal(n)[0] == '0' ==> n == 0)
  {
    var last := ['0' + (n % 10) as char];
    if n >= 10 {
      DecimalPrints(n / 10);
      assert Init(Decimal(n)) == Decimal(n / 10) && Decimal(n)[0] == Decimal(n / 10)[0];
    } else {
      assert last[..0] == "";
    }
  }

  lemma DecimalInjective(m: nat, n: nat)
    requires Decimal(m) == Decimal(n)
    ensures m == n
  {
    DecimalPrints(m);
    DecimalPrints(n);
  }

  function Init(s: string): string requires s != "" { s[..|s| - 1] }

  function Last(s: string): char requires s != "" { s[|s| - 1] }

  /** The code-point order of strings. */
  function StringLess(a: string, b: string): bool {
    if b == "" then false
    else if a == "" then true
    else a[0] < b[0] || (a[0] == b[0] && StringLess(a[1..], b[1..]))
  }

  lemma {:induction false} StringOrder(a: string, b: string, c: string)
    ensures StringLess(a, b) ==> !StringLess(b, a)
    ensures !StringLess(a, b) && !StringLess(b, c) ==> !StringLess(a, c)
    ensures !StringLess(a, b) && !StringLess(b, a) ==> a == b
    decreases |a|
  {
    if a != "" && b != "" {
      StringOrder(a[1..], b[1..], if c == "" then "" else c[1..]);
      if !StringLess(a, b) && !StringLess(b, a) { assert a == [a[0]] + a[1..] && b == [b[0]] + b[1..]; }
    }
  }

  /** The strings differ at index n for the first time, and `a` has the lower character. */
  predicate LowerAt(a: string, b: string, n: nat) {
    n < |a| && n < |b| && a[..n] == b[..n] && a[n] < b[n]
  }

  /** The first difference decides; without one, the shorter string comes first. */
  ghost predicate ComesBefore(a: string, b: string) {
    a < b || exists n: nat :: LowerAt(a, b, n)
  }

  lemma LowerBehind(a: string, b: string, n: nat)
    requires a != "" && b != "" && a[0] == b[0]
    ensures LowerAt(a, b, n + 1) <==> LowerAt(a[1..], b[1..], n)
  {
    if n + 1 < |a| && n + 1 < |b| {
      assert a[..n + 1] == [a[0]] + a[1..][..n] && b[..n + 1] == [b[0]] + b[1..][..n];
      assert a[..n + 1][1..] == a[1..][..n] && b[..n + 1][1..] == b[1..][..n];
    }
  }

  lemma ComesBeforeStep(a: string, b: string)
    requires a != "" && b != ""
    ensures ComesBefore(a, b) <==> a[0] < b[0] || (a[0] == b[0] && ComesBefore(a[1..], b[1..]))
  {
    assert a == [a[0]] + a[1..] && b == [b[0]] + b[1..];
    if a[0] == b[0] {
      assert a < b <==> a[1..] < b[1..];
      forall n: nat ensures LowerAt(a, b, n + 1) <==> LowerAt(a[1..], b[1..], n) { LowerBehind(a, b, n); }
      if n: nat :| LowerAt(a, b, n) { assert LowerAt(a[1..], b[1..], n - 1); }
      if n: nat :| LowerAt(a[1..], b[1..], n) { assert LowerAt(a, b, n + 1); }
    } else {
      if a[0] < b[0] { assert LowerAt(a, b, 0); }
      forall n: nat | n > 0 ensures !LowerAt(a, b, n) {
        if n < |a| && n < |b| { assert a[..n][0] == a[0] && b[..n][0] == b[0]; }
      }
    }
  }

  /** The recursive comparison is the order by first difference. */
  lemma {:induction false} StringLessMeans(a: string, b: string)
    ensures StringLess(a, b) <==> ComesBefore(a, b)
  {
    if a != "" && b != "" {
      StringLessMeans(a[1..], b[1..]);
      ComesBeforeStep(a, b);
    }
  }

  predicate Lacks(s: string, c: char) { forall i | 0 <= i < |s| :: s[i] != c }

  lemma LacksAppend(a: string, b: string, c: char)
    ensures Lacks(a + b, c) <==> Lacks(a, c) && Lacks(b, c)
  {
    if Lacks(a + b, c) {
      forall i | 0 <= i < |a| ensures a[i] != c { assert (a + b)[i] == a[i]; }
      forall i | 0 <= i < |b| ensures b[i] != c { assert (a + b)[|a| + i] == b[i]; }
    }
  }

  /** What precedes the first `c`. */
  function Before(text: string, c: char): string {
    if text == "" || text[0] == c then "" else [text[0]] + Before(text[1..], c)
  }

  /** What follows the first `c`. */
  function Behind(text: string, c: char): Option<string> {
    if text == "" then None else if text[0] == c then Some(text[1..]) else Behind(text[1..], c)
  }

  function SplitAt(text: string, c: char): seq<string>
    decreases |text|
  {
    match Behind(text, c)
    case None => [text]
    case Some(rest) =>
      BehindShorter(text, c);
      [Before(text, c)] + SplitAt(rest, c)
  }

  lemma {:induction false} BehindShorter(text: string, c: char)
    ensures Behind(text, c).Some? ==> |Behind(text, c).value| < |text|
  {
    if text != "" { BehindShorter(text[1..], c); }
  }

  lemma {:induction false} CutAt(a: string, c: char, b: string)
    requires Lacks(a, c)
    ensures Before(a, c) == a && Behind(a, c) == None
    ensures Before(a + ([c] + b), c) == a && Behind(a + ([c] + b), c) == Some(b)
  {
    if a == "" {
      assert a + ([c] + b) == [c] + b && ([c] + b)[1..] == b;
    } else {
      CutAt(a[1..], c, b);
      assert (a + ([c] + b))[1..] == a[1..] + ([c] + b);
    }
  }

  lemma {:induction false} SplitNone(text: string, c: char)
    requires Lacks(text, c)
    ensures SplitAt(text, c) == [text]
  {
    CutAt(text, c, "");
  }

  /** Splitting at a character splits what stands on either side of each of its places. */
  lemma {:induction false} SplitConcat(a: string, c: char, b: string)
    ensures SplitAt(a + ([c] + b), c) == SplitAt(a, c) + SplitAt(b, c)
    decreases |a|
  {
    if i: nat :| i < |a| && a[i] == c && Lacks(a[..i], c) {
      var front, rest := a[..i], a[i + 1..];
      assert a == front + ([c] + rest);
      assert a + ([c] + b) == front + ([c] + (rest + ([c] + b)));
      CutAt(front, c, rest);
      CutAt(front, c, rest + ([c] + b));
      SplitConcat(rest, c, b);
      assert [front] + (SplitAt(rest, c) + SplitAt(b, c)) == ([front] + SplitAt(rest, c)) + SplitAt(b, c);
    } else {
      FirstPlace(a, c);
      CutAt(a, c, b);
    }
  }

  lemma {:induction false} FirstPlace(a: string, c: char)
    ensures Lacks(a, c) || exists i: nat :: i < |a| && a[i] == c && Lacks(a[..i], c)
  {
    if a != "" {
      var n := |a| - 1;
      FirstPlace(a[..n], c);
      if i: nat :| i < n && a[..n][i] == c && Lacks(a[..n][..i], c) {
        assert a[..n][..i] == a[..i];
      } else if a[n] == c {
        assert Lacks(a[..n], c);
      }
    }
  }

  /** White space, as the standard string type counts it. */
  predicate Space(c: char) {
    var n := c as int;
    || 9 <= n <= 13 || 28 <= n <= 32 || n == 0x85 || n == 0xA0 || n == 0x1680 || 0x2000 <= n <= 0x200A
    || n == 0x2028 || n == 0x2029 || n == 0x202F || n == 0x205F || n == 0x3000
  }

  lemma SpaceMeans(c: char)
    ensures Space(c) <==>
              c as int in {9, 10, 11, 12, 13, 28, 29, 30, 31, 32, 133, 160, 5760, 8192, 8193, 8194, 8195, 8196, 8197, 8198, 8199, 8200,
                           8201, 8202, 8232, 8233, 8239, 8287, 12288}
  {
  }

  /** The words of a text, between white space. */
  function Words(s: string): (words: seq<string>)
    ensures s != "" && !Space(s[|s| - 1]) ==> words != []
  {
    if s == "" then []
    else
      var init, last := s[..|s| - 1], s[|s| - 1];
      if Space(last) then Words(init)
      else if init == "" || Space(init[|init| - 1]) then Words(init) + [[last]]
      else
        var words := Words(init);
        words[..|words| - 1] + [words[|words| - 1] + [last]]
  }

  function JoinWith(separator: string, parts: seq<string>): string {
    if parts == [] then ""
    else if |parts| == 1 then parts[0]
    else JoinWith(separator, parts[..|parts| - 1]) + separator + parts[|parts| - 1]
  }

  /** Every stretch of white space becomes one blank, none at the ends. */
  function Collapsed(s: string): string { JoinWith(" ", Words(s)) }
}
