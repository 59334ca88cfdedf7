/** scripts/coverage_debt.py: the tracker's state, validated and encoded as JSON. */
module StateJson {
  import opened Text
  import opened TrackerHistory

  const SCHEMA_VERSION := 1

  // ----- what is valid -----

  predicate CommitName(s: string): (name: bool)
    ensures name ==> |s| == 40
  {
    HexString(s, 40)
  }

  predicate TwoDecimals(s: string) {
    s == "100.00" ||
    (4 <= |s| <= 5 && s[|s| - 3] == '.' && forall i | 0 <= i < |s| && i != |s| - 3 :: Digit(s[i]))
  }

  /** A percentage is written with one or two digits and two decimals, or is one hundred. */
  lemma TwoDecimalsMean(s: string)
    ensures TwoDecimals(s) <==>
              (s == "100.00" || exists a, b :: Digits(a) && Digits(b) && |a| <= 2 && |b| == 2 && s == a + "." + b)
  {
    if TwoDecimals(s) && s != "100.00" {
      var n := |s| - 3;
      assert s == s[..n] + "." + s[n + 1..] && Digits(s[..n]) && Digits(s[n + 1..]);
    }
    forall a, b | Digits(a) && Digits(b) && |a| <= 2 && |b| == 2 && s == a + "." + b ensures TwoDecimals(s) {
      assert |s| - 3 == |a| && s[|a|] == '.';
    }
  }

  predicate ValidMeasurement(m: Measurement) {
    && CommitName(m.sourceCommit) && TwoDecimals(m.percent)
    && m.statements >= 0 && m.covered >= 0 && m.missed >= 0 && m.covered + m.missed == m.statements
  }

  predicate ValidState(s: State) {
    ValidMeasurement(s.current) && ValidMeasurement(s.previous) && ValidMeasurement(s.best)
  }

  predicate NameChar(c: char) {
    'A' <= c <= 'Z' || 'a' <= c <= 'z' || Digit(c) || c in "_.-"
  }

  predicate ValidRepository(s: string) {
    exists i | 0 < i < |s| - 1 :: s[i] == '/' && forall j | 0 <= j < |s| && j != i :: NameChar(s[j])
  }

  // ----- the state, encoded -----

  function Number(n: int): string { if n < 0 then "-" + Decimal(-n) else Decimal(n) }

  function Field(key: string, value: string, rest: string): string { key + (value + rest) }

  /** The measurement's object, followed by `rest`. */
  function EncodeMeasurement(m: Measurement, rest: string): string
  {
    Field("{\"coverage_percent\":\"", m.percent, Field("\",\"covered_lines\":", Number(m.covered), EncodeMissed(m, rest)))
  }

  function EncodeMissed(m: Measurement, rest: string): string
  {
    Field(",\"missed_lines\":", Number(m.missed),
      Field(",\"source_commit\":\"", m.sourceCommit, Field("\",\"statements\":", Number(m.statements), "}" + rest)))
  }

  function EncodeState(s: State): string
  {
    "{\"best\":" + EncodeMeasurement(s.best,
      ",\"current\":" + EncodeMeasurement(s.current,
        ",\"previous\":" + EncodeMeasurement(s.previous, ",\"schema_version\":1}")))
  }

  /** What a JSON text says, if it is a text of that form. */
  datatype Decoded = Decoded(version: int, state: State)

  // ----- the encoding is injective -----

  predicate Stop(c: char) { c in "\",}" }

  predicate Value(s: string) { forall i | 0 <= i < |s| :: !Stop(s[i]) && s[i] != '<' && s[i] != '\n' }

  lemma ValueEnds(a: string, x: string, b: string, y: string)
    requires Value(a) && Value(b) && x != "" && y != "" && Stop(x[0]) && Stop(y[0])
    requires a + x == b + y
    ensures a == b && x == y
  {
    assert (a + x)[|a|] == x[0] && (b + y)[|b|] == y[0];
    assert forall i | 0 <= i < |a| :: !Stop((a + x)[i]);
    assert forall i | 0 <= i < |b| :: !Stop((b + y)[i]);
    assert (a + x)[..|a|] == a && (b + y)[..|b|] == b && (a + x)[|a|..] == x && (b + y)[|b|..] == y;
  }

  lemma FieldEnds(key: string, a: string, x: string, b: string, y: string)
    requires Value(a) && Value(b) && x != "" && y != "" && Stop(x[0]) && Stop(y[0])
    requires Field(key, a, x) == Field(key, b, y)
    ensures a == b && x == y
  {
    DropSame(key, a + x, b + y);
    ValueEnds(a, x, b, y);
  }

  lemma DropSame(a: string, x: string, y: string)
    requires a + x == a + y
    ensures x == y
  {
    assert (a + x)[|a|..] == x && (a + y)[|a|..] == y;
  }

  lemma DecimalValue(n: nat)
    ensures Value(Decimal(n))
  {
    DecimalDigits(n);
    forall i | 0 <= i < |Decimal(n)| ensures Digit(Decimal(n)[i]) { assert Decimal(n)[i] in Decimal(n); }
  }

  lemma ValuesOf(m: Measurement)
    requires ValidMeasurement(m)
    ensures Value(m.percent) && Value(m.sourceCommit)
    ensures Value(Number(m.covered)) && Value(Number(m.missed)) && Value(Number(m.statements))
  {
    DecimalValue(m.covered);
    DecimalValue(m.missed);
    DecimalValue(m.statements);
    forall i | 0 <= i < |m.sourceCommit| ensures !Stop(m.sourceCommit[i]) && m.sourceCommit[i] != '<' && m.sourceCommit[i] != '\n' {
      assert m.sourceCommit[i] in m.sourceCommit;
    }
  }

  lemma MeasurementEnds(m: Measurement, x: string, n: Measurement, y: string)
    requires ValidMeasurement(m) && ValidMeasurement(n)
    requires EncodeMeasurement(m, x) == EncodeMeasurement(n, y)
    ensures m == n && x == y
  {
    ValuesOf(m);
    ValuesOf(n);
    var p, q := EncodeMissed(m, x), EncodeMissed(n, y);
    FieldEnds("{\"coverage_percent\":\"", m.percent, Field("\",\"covered_lines\":", Number(m.covered), p),
      n.percent, Field("\",\"covered_lines\":", Number(n.covered), q));
    FieldEnds("\",\"covered_lines\":", Number(m.covered), p, Number(n.covered), q);
    MissedEnds(m, x, n, y);
    DecimalInjective(m.covered, n.covered);
  }

  lemma MissedEnds(m: Measurement, x: string, n: Measurement, y: string)
    requires ValidMeasurement(m) && ValidMeasurement(n)
    requires EncodeMissed(m, x) == EncodeMissed(n, y)
    ensures m.missed == n.missed && m.sourceCommit == n.sourceCommit && m.statements == n.statements && x == y
  {
    ValuesOf(m);
    ValuesOf(n);
    var p, q := Field("\",\"statements\":", Number(m.statements), "}" + x), Field("\",\"statements\":", Number(n.statements), "}" + y);
    FieldEnds(",\"missed_lines\":", Number(m.missed), Field(",\"source_commit\":\"", m.sourceCommit, p),
      Number(n.missed), Field(",\"source_commit\":\"", n.sourceCommit, q));
    FieldEnds(",\"source_commit\":\"", m.sourceCommit, p, n.sourceCommit, q);
    FieldEnds("\",\"statements\":", Number(m.statements), "}" + x, Number(n.statements), "}" + y);
    DropSame("}", x, y);
    DecimalInjective(m.missed, n.missed);
    DecimalInjective(m.statements, n.statements);
  }

  /** Two states of the same encoding are equal, so a decoder that undoes the
      encoder can exist. */
  lemma EncodingInjective(s: State, t: State)
    requires ValidState(s) && ValidState(t) && EncodeState(s) == EncodeState(t)
    ensures s == t
  {
    var tail := ",\"schema_version\":1}";
    var s3, t3 := EncodeMeasurement(s.previous, tail), EncodeMeasurement(t.previous, tail);
    var s2, t2 := EncodeMeasurement(s.current, ",\"previous\":" + s3), EncodeMeasurement(t.current, ",\"previous\":" + t3);
    DropSame("{\"best\":", EncodeMeasurement(s.best, ",\"current\":" + s2), EncodeMeasurement(t.best, ",\"current\":" + t2));
    MeasurementEnds(s.best, ",\"current\":" + s2, t.best, ",\"current\":" + t2);
    DropSame(",\"current\":", s2, t2);
    MeasurementEnds(s.current, ",\"previous\":" + s3, t.current, ",\"previous\":" + t3);
    DropSame(",\"previous\":", s3, t3);
    MeasurementEnds(s.previous, tail, t.previous, tail);
  }

  // ----- no angle bracket in the encoding -----

  predicate Flat(s: string) { forall i | 0 <= i < |s| :: s[i] != '<' }

  lemma FlatAppend(a: string, b: string)
    ensures Flat(a + b) <==> Flat(a) && Flat(b)
    ensures b != "" ==> Last(a + b) == Last(b)
  {
    if Flat(a + b) {
      forall i | 0 <= i < |a| ensures a[i] != '<' { assert (a + b)[i] == a[i]; }
      forall i | 0 <= i < |b| ensures b[i] != '<' { assert (a + b)[|a| + i] == b[i]; }
    }
  }

  lemma FlatField(key: string, value: string, rest: string)
    requires Flat(key) && Flat(rest) && Value(value)
    ensures Flat(Field(key, value, rest))
    ensures rest != "" ==> Field(key, value, rest) != "" && Last(Field(key, value, rest)) == Last(rest)
  {
  }

  lemma MeasurementFlat(m: Measurement, rest: string)
    requires ValidMeasurement(m) && rest != "" && Flat(rest)
    ensures Flat(EncodeMeasurement(m, rest)) && EncodeMeasurement(m, rest) != ""
    ensures Last(EncodeMeasurement(m, rest)) == Last(rest)
  {
    ValuesOf(m);
    FlatAppend("}", rest);
    var p := Field("\",\"statements\":", Number(m.statements), "}" + rest);
    FlatField("\",\"statements\":", Number(m.statements), "}" + rest);
    FlatField(",\"source_commit\":\"", m.sourceCommit, p);
    FlatField(",\"missed_lines\":", Number(m.missed), Field(",\"source_commit\":\"", m.sourceCommit, p));
    var q := EncodeMissed(m, rest);
    FlatField("\",\"covered_lines\":", Number(m.covered), q);
    FlatField("{\"coverage_percent\":\"", m.percent, Field("\",\"covered_lines\":", Number(m.covered), q));
  }

  lemma KeyedFlat(key: string, m: Measurement, rest: string)
    requires ValidMeasurement(m) && rest != "" && Flat(rest) && Flat(key)
    ensures Flat(key + EncodeMeasurement(m, rest)) && key + EncodeMeasurement(m, rest) != ""
    ensures Last(key + EncodeMeasurement(m, rest)) == Last(rest)
  {
    MeasurementFlat(m, rest);
    FlatAppend(key, EncodeMeasurement(m, rest));
  }

  lemma ObjectsFlat(first: string, second: string, third: string, tail: string, s: State)
    requires ValidState(s) && Flat(first) && Flat(second) && Flat(third) && Flat(tail) && tail != ""
    ensures var text := first + EncodeMeasurement(s.best, second + EncodeMeasurement(s.current, third + EncodeMeasurement(s.previous, tail)));
            Flat(text) && text != "" && Last(text) == Last(tail)
  {
    KeyedFlat(third, s.previous, tail);
    KeyedFlat(second, s.current, third + EncodeMeasurement(s.previous, tail));
    KeyedFlat(first, s.best, second + EncodeMeasurement(s.current, third + EncodeMeasurement(s.previous, tail)));
  }

  lemma StateFlat(s: State)
    requires ValidState(s)
    ensures Flat(EncodeState(s)) && EncodeState(s) != "" && Last(EncodeState(s)) == '}'
  {
    ObjectsFlat("{\"best\":", ",\"current\":", ",\"previous\":", ",\"schema_version\":1}", s);
  }

  // ----- what the encoding shows -----

  lemma NameCharMeans(c: char)
    ensures NameChar(c) <==> c in "abcdefghijklmnopqrstuvwxyz" || c in "ABCDEFGHIJKLMNOPQRSTUVWXYZ" || c in "0123456789" || c in "_.-"
  {
  }

  /** A repository is an owner and a name, both of name characters. */
  lemma RepositoryMeans(s: string)
    ensures ValidRepository(s) <==>
              exists owner, name :: IsName(owner) && IsName(name) && s == owner + "/" + name
  {
    if i :| 0 < i < |s| - 1 && s[i] == '/' && forall j | 0 <= j < |s| && j != i :: NameChar(s[j]) {
      assert IsName(s[..i]) && IsName(s[i + 1..]) && s == s[..i] + "/" + s[i + 1..];
    }
    forall owner, name | IsName(owner) && IsName(name) && s == owner + "/" + name ensures ValidRepository(s) {
      assert s[|owner|] == '/' && forall j | 0 <= j < |s| && j != |owner| :: NameChar(s[j]);
    }
  }

  predicate IsName(s: string) { s != "" && forall i | 0 <= i < |s| :: NameChar(s[i]) }

  /** The text has this key with this value, and the value ends there. */
  ghost predicate HasField(text: string, key: string, value: string) {
    exists a, b :: FieldAt(text, a, key, value, b)
  }

  predicate FieldAt(text: string, a: string, key: string, value: string, b: string) {
    text == a + ("\"" + key + "\":" + value) + b && b != "" && Stop(b[0])
  }

  function Quoted(s: string): string { "\"" + s + "\"" }

  /** The object of one measurement. */
  function ObjectText(m: Measurement): string { EncodeMeasurement(m, "") }

  /** A key with its value at the front of a text. */
  lemma FieldFirst(front: string, key: string, value: string, rest: string)
    requires rest != "" && Stop(rest[0])
    ensures HasField((front + ("\"" + key + "\":")) + (value + rest), key, value)
  {
    var text := (front + ("\"" + key + "\":")) + (value + rest);
    assert text == front + (("\"" + key + "\":") + value) + rest;
    assert FieldAt(text, front, key, value, rest);
  }

  lemma FieldFirstQuoted(front: string, key: string, value: string, rest: string)
    requires rest != "" && Stop(rest[0])
    ensures HasField((front + ("\"" + key + "\":") + "\"") + (value + ("\"" + rest)), key, Quoted(value))
  {
    FieldFirst(front, key, Quoted(value), rest);
    assert (front + ("\"" + key + "\":") + "\"") + (value + ("\"" + rest)) == (front + ("\"" + key + "\":")) + (Quoted(value) + rest);
  }

  lemma FieldBehind(front: string, value: string, rest: string, key: string, other: string)
    requires HasField(rest, key, other)
    ensures HasField(Field(front, value, rest), key, other)
  {
    var a, b :| FieldAt(rest, a, key, other, b);
    var middle := "\"" + key + "\":" + other;
    assert front + (value + (a + middle + b)) == (front + value + a) + middle + b;
    assert FieldAt(Field(front, value, rest), front + value + a, key, other, b);
  }

  lemma StatementsRead(m: Measurement, rest: string)
    requires rest != "" && Stop(rest[0])
    ensures HasField(Field("\",\"statements\":", Number(m.statements), rest), "statements", Number(m.statements))
  {
    assert "\",\"statements\":" == "\"," + ("\"" + "statements" + "\":");
    FieldFirst("\",", "statements", Number(m.statements), rest);
  }

  lemma CommitRead(m: Measurement, rest: string)
    requires |rest| > 1 && rest[0] == '"' && Stop(rest[1])
    ensures HasField(Field(",\"source_commit\":\"", m.sourceCommit, rest), "source_commit", Quoted(m.sourceCommit))
  {
    assert ",\"source_commit\":\"" == "," + ("\"" + "source_commit" + "\":") + "\"";
    assert rest == "\"" + rest[1..];
    FieldFirstQuoted(",", "source_commit", m.sourceCommit, rest[1..]);
  }

  lemma MissedRead(m: Measurement, rest: string)
    requires rest != "" && Stop(rest[0])
    ensures HasField(Field(",\"missed_lines\":", Number(m.missed), rest), "missed_lines", Number(m.missed))
  {
    assert ",\"missed_lines\":" == "," + ("\"" + "missed_lines" + "\":");
    FieldFirst(",", "missed_lines", Number(m.missed), rest);
  }

  lemma CoveredRead(m: Measurement, rest: string)
    requires rest != "" && Stop(rest[0])
    ensures HasField(Field("\",\"covered_lines\":", Number(m.covered), rest), "covered_lines", Number(m.covered))
  {
    assert "\",\"covered_lines\":" == "\"," + ("\"" + "covered_lines" + "\":");
    FieldFirst("\",", "covered_lines", Number(m.covered), rest);
  }

  lemma PercentRead(m: Measurement, rest: string)
    requires |rest| > 1 && rest[0] == '"' && Stop(rest[1])
    ensures HasField(Field("{\"coverage_percent\":\"", m.percent, rest), "coverage_percent", Quoted(m.percent))
  {
    assert "{\"coverage_percent\":\"" == "{" + ("\"" + "coverage_percent" + "\":") + "\"";
    assert rest == "\"" + rest[1..];
    FieldFirstQuoted("{", "coverage_percent", m.percent, rest[1..]);
  }

  /** An encoded object has every number and text of the measurement under its key. */
  lemma ObjectReads(m: Measurement, rest: string)
    ensures HasField(EncodeMeasurement(m, rest), "coverage_percent", Quoted(m.percent))
    ensures HasField(EncodeMeasurement(m, rest), "covered_lines", Number(m.covered))
    ensures HasField(EncodeMeasurement(m, rest), "missed_lines", Number(m.missed))
    ensures HasField(EncodeMeasurement(m, rest), "source_commit", Quoted(m.sourceCommit))
    ensures HasField(EncodeMeasurement(m, rest), "statements", Number(m.statements))
  {
    var statements := Field("\",\"statements\":", Number(m.statements), "}" + rest);
    var commit := Field(",\"source_commit\":\"", m.sourceCommit, statements);
    var missed := EncodeMissed(m, rest);
    var covered := Field("\",\"covered_lines\":", Number(m.covered), missed);
    StatementsRead(m, "}" + rest);
    CommitRead(m, statements);
    MissedRead(m, commit);
    CoveredRead(m, missed);
    PercentRead(m, covered);
    FieldBehind(",\"source_commit\":\"", m.sourceCommit, statements, "statements", Number(m.statements));
    InMissed(m, rest, "statements", Number(m.statements));
    InMissed(m, rest, "source_commit", Quoted(m.sourceCommit));
    Outward(m, rest, "statements", Number(m.statements));
    Outward(m, rest, "source_commit", Quoted(m.sourceCommit));
    Outward(m, rest, "missed_lines", Number(m.missed));
    FieldBehind("{\"coverage_percent\":\"", m.percent, covered, "covered_lines", Number(m.covered));
  }

  lemma InMissed(m: Measurement, rest: string, key: string, value: string)
    requires HasField(Field(",\"source_commit\":\"", m.sourceCommit, Field("\",\"statements\":", Number(m.statements), "}" + rest)), key, value)
    ensures HasField(EncodeMissed(m, rest), key, value)
  {
    FieldBehind(",\"missed_lines\":", Number(m.missed),
      Field(",\"source_commit\":\"", m.sourceCommit, Field("\",\"statements\":", Number(m.statements), "}" + rest)), key, value);
  }

  lemma Outward(m: Measurement, rest: string, key: string, value: string)
    requires HasField(EncodeMissed(m, rest), key, value)
    ensures HasField(EncodeMeasurement(m, rest), key, value)
  {
    FieldBehind("\",\"covered_lines\":", Number(m.covered), EncodeMissed(m, rest), key, value);
    FieldBehind("{\"coverage_percent\":\"", m.percent, Field("\",\"covered_lines\":", Number(m.covered), EncodeMissed(m, rest)), key, value);
  }

  lemma {:induction false} ObjectThen(m: Measurement, rest: string)
    ensures EncodeMeasurement(m, rest) == ObjectText(m) + rest
  {
    var s, t := "}" + "", "}" + rest;
    assert t == s + rest;
    ThenField("\",\"statements\":", Number(m.statements), s, rest);
    ThenField(",\"source_commit\":\"", m.sourceCommit, Field("\",\"statements\":", Number(m.statements), s), rest);
    ThenField(",\"missed_lines\":", Number(m.missed),
      Field(",\"source_commit\":\"", m.sourceCommit, Field("\",\"statements\":", Number(m.statements), s)), rest);
    ThenField("\",\"covered_lines\":", Number(m.covered), EncodeMissed(m, ""), rest);
    ThenField("{\"coverage_percent\":\"", m.percent, Field("\",\"covered_lines\":", Number(m.covered), EncodeMissed(m, "")), rest);
  }

  lemma ThenField(key: string, value: string, inner: string, rest: string)
    ensures Field(key, value, inner + rest) == Field(key, value, inner) + rest
  {
    assert key + (value + (inner + rest)) == (key + (value + inner)) + rest;
  }

  /** The encoded state has the three measurements and the version under their keys. */
  lemma StateReads(s: State)
    ensures HasField(EncodeState(s), "best", ObjectText(s.best))
    ensures HasField(EncodeState(s), "current", ObjectText(s.current))
    ensures HasField(EncodeState(s), "previous", ObjectText(s.previous))
    ensures HasField(EncodeState(s), "schema_version", "1")
  {
    StateText(s, "{\"best\":", ",\"current\":", ",\"previous\":", ",\"schema_version\":1}");
    KeysRead(ObjectText(s.best), ObjectText(s.current), ObjectText(s.previous));
  }

  lemma StateText(s: State, best: string, current: string, previous: string, tail: string)
    ensures best + EncodeMeasurement(s.best, current + EncodeMeasurement(s.current, previous + EncodeMeasurement(s.previous, tail)))
         == best + (ObjectText(s.best) + (current + (ObjectText(s.current) + (previous + (ObjectText(s.previous) + tail)))))
  {
    ObjectThen(s.previous, tail);
    ObjectThen(s.current, previous + EncodeMeasurement(s.previous, tail));
    ObjectThen(s.best, current + EncodeMeasurement(s.current, previous + EncodeMeasurement(s.previous, tail)));
  }

  lemma KeysRead(best: string, current: string, previous: string)
    ensures var tail := ",\"schema_version\":1}";
            var text := "{\"best\":" + (best + (",\"current\":" + (current + (",\"previous\":" + (previous + tail)))));
            && HasField(text, "best", best) && HasField(text, "current", current) && HasField(text, "previous", previous)
            && HasField(text, "schema_version", "1")
  {
    var tail := ",\"schema_version\":1}";
    var third := ",\"previous\":" + (previous + tail);
    var second := ",\"current\":" + (current + third);
    VersionRead();
    assert ",\"previous\":" == "," + ("\"" + "previous" + "\":") && ",\"current\":" == "," + ("\"" + "current" + "\":");
    assert "{\"best\":" == "{" + ("\"" + "best" + "\":");
    FieldFirst(",", "previous", previous, tail);
    FieldFirst(",", "current", current, third);
    FieldFirst("{", "best", best, second);
    FieldBehind(",\"previous\":", previous, tail, "schema_version", "1");
    FieldBehind(",\"current\":", current, third, "schema_version", "1");
    FieldBehind(",\"current\":", current, third, "previous", previous);
    FieldBehind("{\"best\":", best, second, "schema_version", "1");
    FieldBehind("{\"best\":", best, second, "previous", previous);
    FieldBehind("{\"best\":", best, second, "current", current);
  }

  lemma VersionRead()
    ensures HasField(",\"schema_version\":1}", "schema_version", "1")
  {
    assert ",\"schema_version\":1}" == ("," + ("\"" + "schema_version" + "\":")) + ("1" + "}");
    FieldFirst(",", "schema_version", "1", "}");
  }
}
