/** scripts/validate_release.py: the version ordering key, against the precedence
    of section 11 of Semantic Versioning 2.0.0. */
module SemVer {
  import opened Text

  // ----- the key -----

  datatype Identifier = Numeric(value: nat) | Word(text: string)

  datatype Key = Key(major: nat, minor: nat, patch: nat, final: nat, prerelease: seq<Identifier>)

  function IdentifierOf(s: string): Identifier {
    if Digits(s) then Numeric(Numeral(s)) else Word(s)
  }

  function Identifiers(parts: seq<string>): (ids: seq<Identifier>)
    ensures |ids| == |parts| && forall i | 0 <= i < |parts| :: ids[i] == IdentifierOf(parts[i])
  {
    if parts == [] then [] else [IdentifierOf(parts[0])] + Identifiers(parts[1..])
  }

  /** The ordering key; None where the core is not three numbers. */
  function KeyOf(version: string): Option<Key> {
    var public := Before(version, '+');
    var core, prerelease := Before(public, '-'), Behind(public, '-');
    var numbers := SplitAt(core, '.');
    if |numbers| == 3 && Digits(numbers[0]) && Digits(numbers[1]) && Digits(numbers[2]) then
      Some(Key(Numeral(numbers[0]), Numeral(numbers[1]), Numeral(numbers[2]), if prerelease.Some? then 0 else 1,
               if prerelease.Some? then Identifiers(SplitAt(prerelease.value, '.')) else []))
    else None
  }

  // ----- comparing keys -----

  function IdentifierLess(a: Identifier, b: Identifier): bool {
    match (a, b)
    case (Numeric(m), Numeric(n)) => m < n
    case (Numeric(_), Word(_)) => true
    case (Word(_), Numeric(_)) => false
    case (Word(s), Word(t)) => StringLess(s, t)
  }

  function TupleLess(a: seq<Identifier>, b: seq<Identifier>): bool {
    if b == [] then false
    else if a == [] then true
    else if a[0] == b[0] then TupleLess(a[1..], b[1..])
    else IdentifierLess(a[0], b[0])
  }

  function KeyLess(a: Key, b: Key): bool {
    if a.major != b.major then a.major < b.major
    else if a.minor != b.minor then a.minor < b.minor
    else if a.patch != b.patch then a.patch < b.patch
    else if a.final != b.final then a.final < b.final
    else TupleLess(a.prerelease, b.prerelease)
  }

  lemma IdentifierOrder(a: Identifier, b: Identifier, c: Identifier)
    ensures IdentifierLess(a, b) ==> !IdentifierLess(b, a)
    ensures !IdentifierLess(a, b) && !IdentifierLess(b, c) ==> !IdentifierLess(a, c)
    ensures !IdentifierLess(a, b) && !IdentifierLess(b, a) ==> a == b
  {
    if a.Word? && b.Word? { StringOrder(a.text, b.text, if c.Word? then c.text else ""); }
  }

  lemma {:induction false} TupleOrder(a: seq<Identifier>, b: seq<Identifier>, c: seq<Identifier>)
    ensures TupleLess(a, b) ==> !TupleLess(b, a)
    ensures !TupleLess(a, b) && !TupleLess(b, c) ==> !TupleLess(a, c)
    ensures !TupleLess(a, b) && !TupleLess(b, a) ==> a == b
    decreases |a|
  {
    if a != [] && b != [] {
      TupleOrder(a[1..], b[1..], if c == [] then [] else c[1..]);
      IdentifierOrder(a[0], b[0], if c == [] then b[0] else c[0]);
      IdentifierOrder(b[0], a[0], if c == [] then b[0] else c[0]);
      if !TupleLess(a, b) && !TupleLess(b, a) { assert a == [a[0]] + a[1..] && b == [b[0]] + b[1..]; }
    }
  }

  /** Keys are totally ordered. */
  lemma KeyOrder(a: Key, b: Key, c: Key)
    ensures KeyLess(a, b) ==> !KeyLess(b, a)
    ensures !KeyLess(a, b) && !KeyLess(b, c) ==> !KeyLess(a, c)
    ensures !KeyLess(a, b) && !KeyLess(b, a) ==> a == b
  {
    TupleOrder(a.prerelease, b.prerelease, c.prerelease);
  }

  // ----- versions and their precedence, as the standard states them -----

  /** Empty lists stand for an absent pre-release or build part. */
  datatype Version = Version(major: string, minor: string, patch: string, prerelease: seq<string>, build: seq<string>)

  /** A number without leading zeros. */
  predicate ValidNumber(s: string) { Digits(s) && (s[0] == '0' ==> |s| == 1) }

  predicate IdentifierChar(c: char) { Digit(c) || 'A' <= c <= 'Z' || 'a' <= c <= 'z' || c == '-' }

  lemma IdentifierCharMeans(c: char)
    ensures IdentifierChar(c) <==>
              c in "abcdefghijklmnopqrstuvwxyz" || c in "ABCDEFGHIJKLMNOPQRSTUVWXYZ" || c in "0123456789" || c == '-'
  {
  }

  predicate ValidIdentifier(s: string) {
    s != "" && (forall i | 0 <= i < |s| :: IdentifierChar(s[i])) && (Digits(s) ==> ValidNumber(s))
  }

  /** Identifiers are words of letters, digits and dashes, and those of digits only have
      no leading zero. */
  lemma IdentifierMeans(s: string)
    ensures ValidIdentifier(s) <==>
              && |s| >= 1
              && (forall i | 0 <= i < |s| ::
                    s[i] in "abcdefghijklmnopqrstuvwxyz" || s[i] in "ABCDEFGHIJKLMNOPQRSTUVWXYZ" || s[i] in "0123456789" || s[i] == '-')
              && ((forall i | 0 <= i < |s| :: '0' <= s[i] <= '9') ==> s == "0" || s[0] != '0')
  {
    forall i | 0 <= i < |s|
      ensures IdentifierChar(s[i]) <==>
                s[i] in "abcdefghijklmnopqrstuvwxyz" || s[i] in "ABCDEFGHIJKLMNOPQRSTUVWXYZ" || s[i] in "0123456789" || s[i] == '-'
    {
      IdentifierCharMeans(s[i]);
    }
  }

  predicate ValidVersion(v: Version) {
    && ValidNumber(v.major) && ValidNumber(v.minor) && ValidNumber(v.patch)
    && forall i | 0 <= i < |v.prerelease| :: ValidIdentifier(v.prerelease[i])
  }

  function Dotted(parts: seq<string>): string {
    if parts == [] then "" else if |parts| == 1 then parts[0] else parts[0] + "." + Dotted(parts[1..])
  }

  function Written(v: Version): string {
    Dotted([v.major, v.minor, v.patch])
    + (if v.prerelease == [] then "" else "-" + Dotted(v.prerelease))
    + (if v.build == [] then "" else "+" + Dotted(v.build))
  }

  /** Numbers compared as numerals. */
  ghost predicate NumberBelow(a: string, b: string) {
    |a| < |b| || (|a| == |b| && ComesBefore(a, b))
  }

  /** Section 11.4.1 to 11.4.3: words by their first difference in ASCII order. */
  ghost predicate IdentifierBelow(a: string, b: string) {
    if Digits(a) && Digits(b) then NumberBelow(a, b)
    else if Digits(a) || Digits(b) then Digits(a)
    else ComesBefore(a, b)
  }

  /** Section 11.4: the first difference decides; without one, fewer fields (11.4.4). */
  ghost predicate PrereleaseBelow(a: seq<string>, b: seq<string>) {
    exists n: nat | n <= |a| && n < |b| :: DifferAt(a, b, n)
  }

  ghost predicate DifferAt(a: seq<string>, b: seq<string>, n: nat)
    requires n <= |a| && n < |b|
  {
    a[..n] == b[..n] && (n == |a| || (a[n] != b[n] && IdentifierBelow(a[n], b[n])))
  }

  /** Sections 11.2 to 11.4; the build part is ignored (section 10). */
  ghost predicate Precedes(v: Version, w: Version) {
    if v.major != w.major then NumberBelow(v.major, w.major)
    else if v.minor != w.minor then NumberBelow(v.minor, w.minor)
    else if v.patch != w.patch then NumberBelow(v.patch, w.patch)
    else v.prerelease != [] && (w.prerelease == [] || PrereleaseBelow(v.prerelease, w.prerelease))
  }

  function KeyOfVersion(v: Version): Key {
    Key(Numeral(v.major), Numeral(v.minor), Numeral(v.patch), if v.prerelease == [] then 1 else 0, Identifiers(v.prerelease))
  }

  // ----- numerals -----

  function Pow10(n: nat): nat { if n == 0 then 1 else 10 * Pow10(n - 1) }

  lemma {:induction false} ValueBounds(s: string)
    requires Digits(s)
    ensures Numeral(s) < Pow10(|s|)
    ensures s[0] != '0' ==> Pow10(|s| - 1) <= Numeral(s)
  {
    if |s| > 1 {
      ValueBounds(s[..|s| - 1]);
    } else {
      assert s[..0] == "";
    }
  }

  lemma {:induction false} Pow10Grows(m: nat, n: nat)
    requires m <= n
    ensures Pow10(m) <= Pow10(n)
  {
    if m < n { Pow10Grows(m, n - 1); }
  }

  lemma {:induction false} StringLessInit(a: string, b: string)
    requires |a| == |b| > 0
    ensures StringLess(a, b) <==> StringLess(Init(a), Init(b)) || (Init(a) == Init(b) && Last(a) < Last(b))
  {
    if |a| > 1 {
      StringLessInit(a[1..], b[1..]);
      assert Init(a)[1..] == Init(a[1..]) && Init(b)[1..] == Init(b[1..]);
      assert Init(a) == [a[0]] + Init(a)[1..] && Init(b) == [b[0]] + Init(b)[1..];
    }
  }

  lemma {:induction false} SameLengthOrder(a: string, b: string)
    requires Digits(a) && Digits(b) && |a| == |b|
    ensures Numeral(a) < Numeral(b) <==> StringLess(a, b)
    ensures Numeral(a) == Numeral(b) <==> a == b
  {
    StringLessInit(a, b);
    assert a == Init(a) + [Last(a)] && b == Init(b) + [Last(b)];
    if |a| > 1 { SameLengthOrder(Init(a), Init(b)); }
  }

  /** The values of valid numerals are ordered as the numerals are. */
  lemma NumberOrder(a: string, b: string)
    requires ValidNumber(a) && ValidNumber(b)
    ensures Numeral(a) < Numeral(b) <==> NumberBelow(a, b)
    ensures Numeral(a) == Numeral(b) <==> a == b
  {
    if |a| == |b| {
      SameLengthOrder(a, b);
      StringLessMeans(a, b);
    } else if |a| < |b| {
      LongerIsMore(a, b);
    } else {
      LongerIsMore(b, a);
    }
  }

  lemma LongerIsMore(a: string, b: string)
    requires ValidNumber(a) && ValidNumber(b) && |a| < |b|
    ensures Numeral(a) < Numeral(b)
  {
    ValueBounds(a);
    ValueBounds(b);
    Pow10Grows(|a|, |b| - 1);
  }

  // ----- precedence of identifiers -----

  lemma IdentifierAgrees(a: string, b: string)
    requires ValidIdentifier(a) && ValidIdentifier(b)
    ensures IdentifierLess(IdentifierOf(a), IdentifierOf(b)) <==> IdentifierBelow(a, b)
    ensures IdentifierOf(a) == IdentifierOf(b) <==> a == b
  {
    if Digits(a) && Digits(b) { NumberOrder(a, b); }
    StringLessMeans(a, b);
  }

  ghost predicate ValidIdentifiers(parts: seq<string>) {
    forall i | 0 <= i < |parts| :: ValidIdentifier(parts[i])
  }

  lemma SameFirst<T>(a: seq<T>, b: seq<T>)
    requires a != [] && b != []
    ensures a == b <==> a[0] == b[0] && a[1..] == b[1..]
  {
    assert a == [a[0]] + a[1..] && b == [b[0]] + b[1..];
  }

  lemma {:induction false} TupleAgrees(a: seq<string>, b: seq<string>)
    requires ValidIdentifiers(a) && ValidIdentifiers(b)
    ensures TupleLess(Identifiers(a), Identifiers(b)) <==> PrereleaseBelow(a, b)
    ensures Identifiers(a) == Identifiers(b) <==> a == b
  {
    if a != [] && b != [] {
      IdentifierAgrees(a[0], b[0]);
      TupleAgrees(a[1..], b[1..]);
      assert Identifiers(a)[1..] == Identifiers(a[1..]) && Identifiers(b)[1..] == Identifiers(b[1..]);
      FirstDifference(a, b);
      SameFirst(a, b);
      SameFirst(Identifiers(a), Identifiers(b));
    } else if b != [] {
      assert DifferAt(a, b, 0);
    }
  }

  lemma DifferenceBehind(a: seq<string>, b: seq<string>, n: nat)
    requires a != [] && b != [] && a[0] == b[0] && n < |a| && n < |b| - 1
    ensures DifferAt(a, b, n + 1) <==> DifferAt(a[1..], b[1..], n)
  {
    SamePrefix(a, b, n);
  }

  lemma SamePrefix(a: seq<string>, b: seq<string>, n: nat)
    requires a != [] && b != [] && a[0] == b[0] && n < |a| && n < |b|
    ensures a[..n + 1] == b[..n + 1] <==> a[1..][..n] == b[1..][..n]
  {
    assert a[..n + 1] == [a[0]] + a[1..][..n] && b[..n + 1] == [b[0]] + b[1..][..n];
    assert a[..n + 1][1..] == a[1..][..n] && b[..n + 1][1..] == b[1..][..n];
  }

  lemma FirstDifference(a: seq<string>, b: seq<string>)
    requires a != [] && b != []
    ensures PrereleaseBelow(a, b) <==> if a[0] == b[0] then PrereleaseBelow(a[1..], b[1..]) else IdentifierBelow(a[0], b[0])
  {
    if a[0] == b[0] {
      assert !DifferAt(a, b, 0);
      forall n: nat | n < |a| && n < |b| - 1 ensures DifferAt(a, b, n + 1) <==> DifferAt(a[1..], b[1..], n) {
        DifferenceBehind(a, b, n);
      }
      if PrereleaseBelow(a, b) {
        var n: nat :| n <= |a| && n < |b| && DifferAt(a, b, n);
        assert DifferAt(a[1..], b[1..], n - 1);
      }
      if PrereleaseBelow(a[1..], b[1..]) {
        var n: nat :| n <= |a| - 1 && n < |b| - 1 && DifferAt(a[1..], b[1..], n);
        assert DifferAt(a, b, n + 1);
      }
    } else {
      assert a[..0] == b[..0] && (DifferAt(a, b, 0) <==> IdentifierBelow(a[0], b[0]));
      forall n: nat | 0 < n <= |a| && n < |b| ensures !DifferAt(a, b, n) {
        assert a[..n][0] != b[..n][0];
      }
    }
  }

  // ----- parsing a written version -----

  ghost predicate AllLack(parts: seq<string>, c: char) {
    forall i | 0 <= i < |parts| :: Lacks(parts[i], c)
  }

  lemma {:induction false} SplitDotted(parts: seq<string>)
    requires parts != [] && AllLack(parts, '.')
    ensures SplitAt(Dotted(parts), '.') == parts
  {
    if |parts| == 1 {
      CutAt(parts[0], '.', "");
    } else {
      CutAt(parts[0], '.', Dotted(parts[1..]));
      assert parts[0] + "." + Dotted(parts[1..]) == parts[0] + ("." + Dotted(parts[1..]));
      SplitDotted(parts[1..]);
    }
  }

  lemma {:induction false} DottedLacks(parts: seq<string>, c: char)
    requires AllLack(parts, c) && c != '.'
    ensures Lacks(Dotted(parts), c)
  {
    if |parts| > 1 { DottedLacks(parts[1..], c); }
  }

  /** A text of three numerals, an optional pre-release part and an optional build
      part, read by the key. */
  lemma KeyOfParts(numbers: seq<string>, pre: Option<string>, build: Option<string>)
    requires |numbers| == 3 && (forall i | 0 <= i < 3 :: Digits(numbers[i]))
    requires pre.Some? ==> Lacks(pre.value, '+')
    ensures var text := Dotted(numbers) + (if pre.Some? then "-" + pre.value else "") + (if build.Some? then "+" + build.value else "");
            KeyOf(text) == Some(Key(Numeral(numbers[0]), Numeral(numbers[1]), Numeral(numbers[2]), if pre.Some? then 0 else 1,
                                    if pre.Some? then Identifiers(SplitAt(pre.value, '.')) else []))
  {
    var core := Dotted(numbers);
    var public := core + (if pre.Some? then "-" + pre.value else "");
    DottedLacks(numbers, '+');
    DottedLacks(numbers, '-');
    CutOption(public, '+', build);
    CutOption(core, '-', pre);
    SplitDotted(numbers);
  }

  /** A part behind a separator, if there is one. */
  lemma CutOption(front: string, c: char, part: Option<string>)
    requires Lacks(front, c)
    ensures var text := front + (if part.Some? then [c] + part.value else "");
            Before(text, c) == front && Behind(text, c) == part
  {
    CutAt(front, c, if part.Some? then part.value else "");
    assert front + "" == front;
  }

  lemma {:induction false} BeforeAppend(a: string, b: string, c: char)
    requires Lacks(a, c)
    ensures Before(a + b, c) == a + Before(b, c)
  {
    if a == "" {
      assert a + b == b;
    } else {
      BeforeAppend(a[1..], b, c);
      assert (a + b)[1..] == a[1..] + b;
    }
  }

  lemma {:induction false} BeforeIsPrefix(text: string, c: char)
    ensures Before(text, c) <= text && (Before(text, c) == text || text[|Before(text, c)|] == c)
  {
    if text != "" && text[0] != c { BeforeIsPrefix(text[1..], c); }
  }

  lemma {:induction false} DottedAgain(text: string)
    ensures SplitAt(text, '.') != [] && Dotted(SplitAt(text, '.')) == text
    decreases |text|
  {
    FirstPlace(text, '.');
    if i: nat :| i < |text| && text[i] == '.' && Lacks(text[..i], '.') {
      var front, rest := text[..i], text[i + 1..];
      DottedAgain(rest);
      assert text == front + (['.'] + rest);
      CutAt(front, '.', rest);
      DottedCons(front, SplitAt(rest, '.'));
    } else {
      SplitNone(text, '.');
    }
  }

  lemma DottedCons(first: string, parts: seq<string>)
    requires parts != []
    ensures Dotted([first] + parts) == first + (['.'] + Dotted(parts))
  {
    assert ([first] + parts)[1..] == parts;
    assert first + "." + Dotted(parts) == first + ("." + Dotted(parts));
  }

  /** The text begins with three numerals between dots, and ends there or goes on with
      a dash or a plus. */
  ghost predicate BeginsWithCore(text: string) {
    exists a, b, c, rest :: CoreAndRest(text, a, b, c, rest)
  }

  predicate CoreAndRest(text: string, a: string, b: string, c: string, rest: string) {
    && Digits(a) && Digits(b) && Digits(c) && text == Dotted([a, b, c]) + rest
    && (rest != "" ==> rest[0] == '-' || rest[0] == '+')
  }

  lemma KeyHasCore(text: string)
    requires KeyOf(text).Some?
    ensures BeginsWithCore(text)
  {
    var core := Before(Before(text, '+'), '-');
    var numbers := SplitAt(core, '.');
    CoreEnds(text);
    DottedAgain(core);
    assert numbers == [numbers[0], numbers[1], numbers[2]];
    assert CoreAndRest(text, numbers[0], numbers[1], numbers[2], text[|core|..]);
  }

  lemma CoreEnds(text: string)
    ensures var core := Before(Before(text, '+'), '-');
            core <= text && text == core + text[|core|..] && (|core| < |text| ==> text[|core|] == '-' || text[|core|] == '+')
  {
    var public := Before(text, '+');
    BeforeIsPrefix(text, '+');
    BeforeIsPrefix(public, '-');
    PrefixEnds(text, public, Before(public, '-'));
  }

  lemma PrefixEnds(text: string, public: string, core: string)
    requires public <= text && core <= public
    requires core == public || public[|core|] == '-'
    requires public == text || text[|public|] == '+'
    ensures core <= text && text == core + text[|core|..] && (|core| < |text| ==> text[|core|] == '-' || text[|core|] == '+')
  {
  }

  lemma CoreHasKey(numbers: seq<string>, rest: string)
    requires |numbers| == 3 && (forall i | 0 <= i < 3 :: Digits(numbers[i]))
    requires rest != "" ==> rest[0] == '-' || rest[0] == '+'
    ensures KeyOf(Dotted(numbers) + rest).Some?
  {
    var core := Dotted(numbers);
    DottedLacks(numbers, '+');
    DottedLacks(numbers, '-');
    BeforeAppend(core, rest, '+');
    BeforeAppend(core, Before(rest, '+'), '-');
    SplitDotted(numbers);
    assert core + "" == core;
  }

  /** A key is given exactly to such texts. */
  lemma KeyIsGiven(text: string)
    ensures KeyOf(text).Some? <==> BeginsWithCore(text)
  {
    if KeyOf(text).Some? { KeyHasCore(text); }
    if a, b, c, rest :| CoreAndRest(text, a, b, c, rest) { CoreHasKey([a, b, c], rest); }
  }

  /** The key of a written version is the key of its parts. */
  lemma KeyOfWritten(v: Version)
    requires ValidVersion(v)
    ensures KeyOf(Written(v)) == Some(KeyOfVersion(v))
  {
    var pre := if v.prerelease == [] then None else Some(Dotted(v.prerelease));
    DottedLacks(v.prerelease, '+');
    KeyOfParts([v.major, v.minor, v.patch], pre, if v.build == [] then None else Some(Dotted(v.build)));
    if v.prerelease != [] { SplitDotted(v.prerelease); }
  }

  /** On valid versions the keys order exactly as the standard's precedence does, and
      are equal exactly for versions that differ in nothing but the build part. */
  lemma KeyIsPrecedence(v: Version, w: Version)
    requires ValidVersion(v) && ValidVersion(w)
    ensures KeyOf(Written(v)).Some? && KeyOf(Written(w)).Some?
    ensures KeyLess(KeyOf(Written(v)).value, KeyOf(Written(w)).value) <==> Precedes(v, w)
    ensures KeyOf(Written(v)) == KeyOf(Written(w)) <==> v.(build := []) == w.(build := [])
  {
    KeyOfWritten(v);
    KeyOfWritten(w);
    NumberOrder(v.major, w.major);
    NumberOrder(v.minor, w.minor);
    NumberOrder(v.patch, w.patch);
    TupleAgrees(v.prerelease, w.prerelease);
  }
}
