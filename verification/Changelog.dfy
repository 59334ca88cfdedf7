/** scripts/validate_release.py: the order of the dated changelog headings. */
module Changelog {
  import opened Text
  import opened SemVer
  import opened StableSort

  datatype ChangelogError = DuplicateHeadings | InvalidVersion | WrongOrder

  /** A heading's version: three numbers and an optional suffix. */
  datatype Heading = Heading(numbers: seq<string>, suffix: string)

  predicate SuffixChar(c: char) { IdentifierChar(c) || c == '.' }

  lemma SuffixCharMeans(c: char)
    ensures SuffixChar(c) <==> c in "abcdefghijklmnopqrstuvwxyz" || c in "ABCDEFGHIJKLMNOPQRSTUVWXYZ" || c in "0123456789" || c in ".-"
  {
  }

  predicate ValidHeading(h: Heading) {
    && |h.numbers| == 3 && (forall i | 0 <= i < 3 :: Digits(h.numbers[i]))
    && (h.suffix == "" ||
        (h.suffix[0] in "-+" && |h.suffix| > 1 && forall i | 1 <= i < |h.suffix| :: SuffixChar(h.suffix[i])))
  }

  lemma TextHasKey(numbers: seq<string>, pre: Option<string>, build: Option<string>, text: string)
    requires |numbers| == 3 && (forall i | 0 <= i < 3 :: Digits(numbers[i])) && (pre.Some? ==> Lacks(pre.value, '+'))
    requires text == Dotted(numbers) + (if pre.Some? then "-" + pre.value else "") + (if build.Some? then "+" + build.value else "")
    ensures KeyOf(text).Some?
  {
    KeyOfParts(numbers, pre, build);
  }

  /** Every version a heading can carry has a key. */
  lemma HeadingHasKey(h: Heading)
    requires ValidHeading(h)
    ensures KeyOf(Dotted(h.numbers) + h.suffix).Some?
  {
    var core, text := Dotted(h.numbers), Dotted(h.numbers) + h.suffix;
    if h.suffix == "" {
      assert text == core + "" + "";
      TextHasKey(h.numbers, None, None, text);
    } else if h.suffix[0] == '-' {
      assert text == core + ("-" + h.suffix[1..]) + "";
      TextHasKey(h.numbers, Some(h.suffix[1..]), None, text);
    } else {
      assert text == core + "" + ("+" + h.suffix[1..]);
      TextHasKey(h.numbers, None, Some(h.suffix[1..]), text);
    }
  }

  // ----- the check -----

  predicate Distinct(versions: seq<string>) {
    forall i, j | 0 <= i < j < |versions| :: versions[i] != versions[j]
  }

  predicate Keyed<K>(versions: seq<string>, keyOf: string -> Option<K>) {
    forall i | 0 <= i < |versions| :: keyOf(versions[i]).Some?
  }

  /** Newest first: no version comes before one of a higher key. */
  ghost predicate NewestFirst<K>(versions: seq<string>, keyOf: string -> Option<K>, less: (K, K) -> bool)
    requires Keyed(versions, keyOf)
  {
    forall i, j | 0 <= i < j < |versions| :: !less(keyOf(versions[i]).value, keyOf(versions[j]).value)
  }

  method CountDistinct(versions: seq<string>) returns (all: bool)
    ensures all <==> Distinct(versions)
  {
    var dated: set<string> := {};
    for i := 0 to |versions|
      invariant forall v :: v in dated <==> v in versions[..i]
      invariant |dated| <= i && (|dated| == i <==> Distinct(versions[..i]))
    {
      assert versions[i] in dated ==> dated + {versions[i]} == dated;
      assert versions[..i + 1] == versions[..i] + [versions[i]];
      DistinctAppend(versions[..i], versions[i]);
      dated := dated + {versions[i]};
    }
    assert versions[..|versions|] == versions;
    all := |dated| == |versions|;
  }

  lemma DistinctAppend(versions: seq<string>, v: string)
    ensures Distinct(versions + [v]) <==> Distinct(versions) && v !in versions
  {
    var more := versions + [v];
    if Distinct(more) {
      forall i, j | 0 <= i < j < |versions| ensures versions[i] != versions[j] {
        assert more[i] == versions[i] && more[j] == versions[j];
      }
      forall i | 0 <= i < |versions| ensures versions[i] != v { assert more[i] != more[|versions|]; }
    }
  }

  method EntriesOf<K>(versions: seq<string>, keyOf: string -> Option<K>) returns (entries: Option<seq<Entry<string, K>>>)
    ensures entries.Some? <==> Keyed(versions, keyOf)
    ensures entries.Some? ==>
              && |entries.value| == |versions|
              && forall i | 0 <= i < |versions| :: entries.value[i] == Entry(versions[i], keyOf(versions[i]).value)
  {
    var found := [];
    for i := 0 to |versions|
      invariant |found| == i
      invariant forall k | 0 <= k < i :: keyOf(versions[k]).Some? && found[k] == Entry(versions[k], keyOf(versions[k]).value)
    {
      var key := keyOf(versions[i]);
      if key.None? { return None; }
      found := found + [Entry(versions[i], key.value)];
    }
    entries := Some(found);
  }

  /** The order check for any key and any total order of keys. */
  method CheckOrder<K(==, !new)>(versions: seq<string>, keyOf: string -> Option<K>, less: (K, K) -> bool)
    returns (error: Option<ChangelogError>)
    requires TotalOrder(less)
    ensures error == None <==> Distinct(versions) && Keyed(versions, keyOf) && NewestFirst(versions, keyOf, less)
    ensures error == Some(DuplicateHeadings) <==> !Distinct(versions)
    ensures error == Some(InvalidVersion) <==> Distinct(versions) && !Keyed(versions, keyOf)
  {
    var distinct := CountDistinct(versions);
    if !distinct { return Some(DuplicateHeadings); }
    var entries := EntriesOf(versions, keyOf);
    if entries.None? { return Some(InvalidVersion); }
    var expected := SortDescending(less, entries.value);
    SortIsFixed(less, entries.value);
    error := if entries.value != expected then Some(WrongOrder) else None;
  }

  lemma KeysAreOrdered()
    ensures TotalOrder(KeyLess)
  {
    forall a, b, c
      ensures KeyLess(a, b) ==> !KeyLess(b, a)
      ensures !KeyLess(a, b) && !KeyLess(b, c) ==> !KeyLess(a, c)
    {
      KeyOrder(a, b, c);
    }
  }

  /** The headings are accepted exactly when they are distinct and newest first. */
  method CheckHeadings(versions: seq<string>) returns (error: Option<ChangelogError>)
    ensures error == None <==> Distinct(versions) && Keyed(versions, KeyOf) && NewestFirst(versions, KeyOf, KeyLess)
    ensures error == Some(DuplicateHeadings) <==> !Distinct(versions)
    ensures error == Some(InvalidVersion) <==> Distinct(versions) && !Keyed(versions, KeyOf)
  {
    KeysAreOrdered();
    error := CheckOrder(versions, KeyOf, KeyLess);
  }

  ghost predicate Writes(versions: seq<string>, parsed: seq<Version>) {
    |versions| == |parsed| && forall i | 0 <= i < |parsed| :: ValidVersion(parsed[i]) && versions[i] == Written(parsed[i])
  }

  /** In accepted headings of valid versions no earlier one is preceded by a later
      one in the standard's sense; without build parts each later one is lower. */
  lemma AcceptedDescend(versions: seq<string>, parsed: seq<Version>, i: nat, j: nat)
    requires Writes(versions, parsed) && i < j < |versions|
    requires Distinct(versions) && Keyed(versions, KeyOf) && NewestFirst(versions, KeyOf, KeyLess)
    ensures !Precedes(parsed[i], parsed[j])
    ensures parsed[i].build == [] == parsed[j].build ==> Precedes(parsed[j], parsed[i])
  {
    var v, w := parsed[i], parsed[j];
    KeyIsPrecedence(v, w);
    KeyIsPrecedence(w, v);
    var a, b := KeyOf(versions[i]).value, KeyOf(versions[j]).value;
    assert !KeyLess(a, b);
    KeyOrder(a, b, a);
    assert v.build == [] ==> v.(build := []) == v;
    assert w.build == [] ==> w.(build := []) == w;
  }
}
