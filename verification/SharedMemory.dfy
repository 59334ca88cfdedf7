/** scripts/kuberay_compiled_graph_pilot.py: the summary of a pod's shared-memory
    directory and the validator of retained summaries. Digests are any function of
    the content they are computed from. */
module SharedMemory {
  import opened Basics
  import opened Text

  const SHARED_MEMORY_BYTES := 536_870_912

  datatype Kind = Header | Object

  datatype Entry = Entry(name: string, size: nat)

  predicate IsDigits(s: string) {
    forall i | 0 <= i < |s| :: '0' <= s[i] <= '9'
  }

  /** One to ten digits, a dash, sixteen to twenty digits. */
  predicate IsPairId(s: string) {
    exists k: nat | 1 <= k <= 10 && k < |s| ::
      s[k] == '-' && IsDigits(s[..k]) && IsDigits(s[k + 1..]) && 16 <= |s| - k - 1 <= 20
  }

  /** Split at its only dash, an identifier has two numerals of the lengths above. */
  lemma PairIdMeans(id: string)
    ensures IsPairId(id) <==>
              exists a, b :: Digits(a) && Digits(b) && id == a + "-" + b && |a| <= 10 && 16 <= |b| <= 20
  {
    if k: nat :| 1 <= k <= 10 && k < |id| && id[k] == '-' && IsDigits(id[..k]) && IsDigits(id[k + 1..]) && 16 <= |id| - k - 1 <= 20 {
      assert id == id[..k] + "-" + id[k + 1..] && Digits(id[..k]) && Digits(id[k + 1..]);
    }
    forall a, b | Digits(a) && Digits(b) && id == a + "-" + b && |a| <= 10 && 16 <= |b| <= 20 ensures IsPairId(id) {
      PairIdJoins(a, b);
    }
  }

  lemma PairIdJoins(a: string, b: string)
    requires Digits(a) && Digits(b) && |a| <= 10 && 16 <= |b| <= 20
    ensures IsPairId(a + "-" + b)
  {
    var id := a + "-" + b;
    assert id[..|a|] == a && id[|a|] == '-' && id[|a| + 1..] == b;
  }

  function KindName(kind: Kind): string {
    if kind.Header? then "hdr" else "obj"
  }

  function SemaphoreName(kind: Kind, pairId: string): string {
    "sem." + KindName(kind) + pairId
  }

  /** The kind and pair of a mutable-object semaphore; no other name has one. */
  function ParseName(name: string): (r: Option<(Kind, string)>)
    ensures r.Some? ==> name == SemaphoreName(r.value.0, r.value.1) && IsPairId(r.value.1)
  {
    if |name| >= 7 && name[..7] == "sem.hdr" && IsPairId(name[7..]) then Some((Header, name[7..]))
    else if |name| >= 7 && name[..7] == "sem.obj" && IsPairId(name[7..]) then Some((Object, name[7..]))
    else None
  }

  lemma ParseSemaphoreName(kind: Kind, pairId: string)
    requires IsPairId(pairId)
    ensures ParseName(SemaphoreName(kind, pairId)) == Some((kind, pairId))
  {
    var name := SemaphoreName(kind, pairId);
    assert name[..7] == "sem." + KindName(kind) && name[7..] == pairId;
    assert "sem." + "hdr" == "sem.hdr" && "sem." + "obj" == "sem.obj";
    assert "sem.hdr"[4] != "sem.obj"[4];
  }

  /** What a digest is taken of; sorting makes lists into collections. */
  datatype Content =
    | EntryRows(entries: multiset<Entry>)
    | PairIds(ids: set<string>)
    | SemaphoreRows(rows: multiset<(Kind, string, nat)>)
    | UnpairedRows(kinds: map<string, set<Kind>>)

  type Digest = Content -> string

  datatype Semaphores = Semaphores(
    headerCount: int, objectCount: int, pairCount: int,
    pairedEntryCount: int, unpairedEntryCount: int, otherEntryCount: int,
    fullyPairedAndExclusive: bool,
    pairDigest: string, semaphoreDigest: string, unpairedDigest: string, otherDigest: string)

  datatype Memory = Memory(
    totalBytes: int, availableBytes: int, entryCount: int, entryBytes: int,
    entryDigest: string, semaphores: Option<Semaphores>)

  predicate IsKind(e: Entry, kind: Kind) {
    ParseName(e.name).Some? && ParseName(e.name).value.0 == kind
  }

  function Count(entries: seq<Entry>, kind: Kind): nat {
    if entries == [] then 0
    else Count(entries[..|entries| - 1], kind) + if IsKind(entries[|entries| - 1], kind) then 1 else 0
  }

  function Others(entries: seq<Entry>): seq<Entry> {
    if entries == [] then []
    else Others(entries[..|entries| - 1]) + if ParseName(entries[|entries| - 1].name).None? then [entries[|entries| - 1]] else []
  }

  function Rows(entries: seq<Entry>): seq<(Kind, string, nat)> {
    if entries == [] then []
    else
      var e := entries[|entries| - 1];
      Rows(entries[..|entries| - 1]) +
      match ParseName(e.name) case None => [] case Some(p) => [(p.0, p.1, e.size)]
  }

  function Bytes(entries: seq<Entry>): nat {
    if entries == [] then 0 else Bytes(entries[..|entries| - 1]) + entries[|entries| - 1].size
  }

  /** The pair identifiers listed with this kind. */
  function Ids(entries: seq<Entry>, kind: Kind): set<string> {
    if entries == [] then {}
    else Ids(entries[..|entries| - 1], kind) + IdOf(entries[|entries| - 1], kind)
  }

  function IdOf(e: Entry, kind: Kind): set<string> {
    match ParseName(e.name)
    case None => {}
    case Some(p) => if p.0 == kind then {p.1} else {}
  }

  function KindsOf(entries: seq<Entry>, id: string): set<Kind> {
    (if id in Ids(entries, Header) then {Header} else {}) + (if id in Ids(entries, Object) then {Object} else {})
  }

  function Paired(entries: seq<Entry>): set<string> {
    Ids(entries, Header) * Ids(entries, Object)
  }

  function Unpaired(entries: seq<Entry>): map<string, set<Kind>> {
    map id | id in Ids(entries, Header) + Ids(entries, Object) && id !in Paired(entries) :: KindsOf(entries, id)
  }

  /** The summary record of a directory of `entryCount` entries. */
  function Summarised(headers: nat, objects: nat, paired: set<string>, unpaired: map<string, set<Kind>>,
                      rows: seq<(Kind, string, nat)>, others: seq<Entry>, entryCount: nat, digest: Digest): Semaphores
  {
    var pairedCount := |paired| * 2;
    var unpairedCount := |rows| - pairedCount;
    Semaphores(
      headers, objects, |paired|, pairedCount, unpairedCount, |others|,
      paired != {} && unpairedCount == 0 && |others| == 0 && pairedCount == entryCount,
      digest(PairIds(paired)), digest(SemaphoreRows(multiset(rows))), digest(UnpairedRows(unpaired)),
      digest(EntryRows(multiset(others))))
  }

  /** The summary, as a function of the listing. */
  function SemaphoresOf(entries: seq<Entry>, digest: Digest): Semaphores {
    Summarised(Count(entries, Header), Count(entries, Object), Paired(entries), Unpaired(entries),
               Rows(entries), Others(entries), |entries|, digest)
  }

  function MemoryOf(entries: seq<Entry>, totalBytes: int, availableBytes: int, digest: Digest): Memory {
    Memory(totalBytes, availableBytes, |entries|, Bytes(entries), digest(EntryRows(multiset(entries))),
           Some(SemaphoresOf(entries, digest)))
  }

  /** The dictionary of the kinds seen under each pair identifier. */
  ghost predicate KindsTallied(entries: seq<Entry>, pairKinds: map<string, set<Kind>>) {
    && pairKinds.Keys == Ids(entries, Header) + Ids(entries, Object)
    && forall id | id in pairKinds :: pairKinds[id] == KindsOf(entries, id)
  }

  /** The dictionary after one more entry. */
  function Tally(pairKinds: map<string, set<Kind>>, e: Entry): map<string, set<Kind>> {
    match ParseName(e.name)
    case None => pairKinds
    case Some(p) => pairKinds[p.1 := (if p.1 in pairKinds then pairKinds[p.1] else {}) + {p.0}]
  }

  lemma IdsStep(entries: seq<Entry>, e: Entry, kind: Kind)
    ensures Ids(entries + [e], kind) == Ids(entries, kind) + IdOf(e, kind)
  {
    assert (entries + [e])[..|entries + [e]| - 1] == entries;
  }

  lemma TallyStep(entries: seq<Entry>, e: Entry, pairKinds: map<string, set<Kind>>)
    requires KindsTallied(entries, pairKinds)
    ensures KindsTallied(entries + [e], Tally(pairKinds, e))
  {
    IdsStep(entries, e, Header);
    IdsStep(entries, e, Object);
    TallyOne(entries, entries + [e], ParseName(e.name), pairKinds);
  }

  /** KindsTallied, kept folded until Same names the dictionary. */
  ghost predicate Tallied(entries: seq<Entry>, pairKinds: map<string, set<Kind>>) {
    forall m | Same(m, pairKinds) :: KindsTallied(entries, m)
  }

  lemma TalliedStep(entries: seq<Entry>, e: Entry, pairKinds: map<string, set<Kind>>)
    requires Tallied(entries, pairKinds)
    ensures Tallied(entries + [e], Tally(pairKinds, e))
  {
    assert Same(pairKinds, pairKinds);
    TallyStep(entries, e, pairKinds);
  }

  lemma TallyOne(entries: seq<Entry>, all: seq<Entry>, parsed: Option<(Kind, string)>, pairKinds: map<string, set<Kind>>)
    requires KindsTallied(entries, pairKinds)
    requires forall kind :: Ids(all, kind) == Ids(entries, kind) +
               if parsed.Some? && parsed.value.0 == kind then {parsed.value.1} else {}
    ensures KindsTallied(all, if parsed.None? then pairKinds
              else pairKinds[parsed.value.1 :=
                (if parsed.value.1 in pairKinds then pairKinds[parsed.value.1] else {}) + {parsed.value.0}])
  {
    if parsed.Some? {
      var (kind, id) := parsed.value;
      var next := pairKinds[id := (if id in pairKinds then pairKinds[id] else {}) + {kind}];
      assert next.Keys == pairKinds.Keys + {id};
      assert Ids(all, Other(kind)) == Ids(entries, Other(kind)) && Ids(all, kind) == Ids(entries, kind) + {id};
      forall other | other in next ensures next[other] == KindsOf(all, other) {
        if other != id { assert KindsOf(all, other) == KindsOf(entries, other); }
      }
    }
  }

  lemma PrefixStep(entries: seq<Entry>, i: nat)
    requires i < |entries|
    ensures var before, after, e := entries[..i], entries[..i + 1], entries[i];
            && after == before + [e]
            && Bytes(after) == Bytes(before) + e.size
            && Others(after) == Others(before) + (if ParseName(e.name).None? then [e] else [])
            && Rows(after) == Rows(before) + (match ParseName(e.name) case None => [] case Some(p) => [(p.0, p.1, e.size)])
            && Count(after, Header) == Count(before, Header) + (if IsKind(e, Header) then 1 else 0)
            && Count(after, Object) == Count(before, Object) + (if IsKind(e, Object) then 1 else 0)
  {
    assert entries[..i + 1][..i] == entries[..i];
  }

  lemma PairsTallied(entries: seq<Entry>, pairKinds: map<string, set<Kind>>)
    requires Tallied(entries, pairKinds)
    ensures (set id | id in pairKinds && pairKinds[id] == {Header, Object}) == Paired(entries)
    ensures (map id | id in pairKinds && pairKinds[id] != {Header, Object} :: pairKinds[id]) == Unpaired(entries)
  {
    assert Same(pairKinds, pairKinds);
    forall id | id in pairKinds ensures pairKinds[id] == {Header, Object} <==> id in Paired(entries) {
      assert pairKinds[id] == {Header, Object} ==> Header in pairKinds[id] && Object in pairKinds[id];
    }
  }

  lemma {:induction false} RowsLength(entries: seq<Entry>)
    ensures |Rows(entries)| == Count(entries, Header) + Count(entries, Object)
    ensures |Others(entries)| + |Rows(entries)| == |entries|
  {
    if entries != [] { RowsLength(entries[..|entries| - 1]); }
  }

  method SharedMemoryEntrySummary(entries: seq<Entry>, totalBytes: int, availableBytes: int, digest: Digest)
    returns (memory: Memory)
    ensures memory == MemoryOf(entries, totalBytes, availableBytes, digest)
  {
    var pairKinds: map<string, set<Kind>> := map[];
    var rows: seq<(Kind, string, nat)> := [];
    var others: seq<Entry> := [];
    var headers, objects, bytes := 0, 0, 0;
    for i := 0 to |entries|
      invariant Tallied(entries[..i], pairKinds)
      invariant rows == Rows(entries[..i]) && others == Others(entries[..i]) && bytes == Bytes(entries[..i])
      invariant headers == Count(entries[..i], Header) && objects == Count(entries[..i], Object)
    {
      var e := entries[i];
      PrefixStep(entries, i);
      TalliedStep(entries[..i], e, pairKinds);
      bytes := bytes + e.size;
      var parsed := ParseName(e.name);
      if parsed.None? {
        others := others + [e];
      } else {
        var (kind, id) := parsed.value;
        pairKinds := Tally(pairKinds, e);
        rows := rows + [(kind, id, e.size)];
        if kind.Header? { headers := headers + 1; } else { objects := objects + 1; }
      }
    }
    assert entries[..|entries|] == entries;
    PairsTallied(entries, pairKinds);
    RowsLength(entries);
    var paired := set id | id in pairKinds && pairKinds[id] == {Header, Object};
    var unpaired := map id | id in pairKinds && pairKinds[id] != {Header, Object} :: pairKinds[id];
    memory := Memory(totalBytes, availableBytes, |entries|, bytes, digest(EntryRows(multiset(entries))),
                     Some(Summarised(headers, objects, paired, unpaired, rows, others, |entries|, digest)));
  }

  // ----- the validator of retained summaries -----

  predicate IsHexDigest(s: string) {
    HexString(s, 64)
  }

  lemma HexDigestMeans(s: string)
    ensures IsHexDigest(s) <==> |s| == 64 && forall i | 0 <= i < 64 :: s[i] in "0123456789" + "abcdef"
  {
    HexStringMeans(s, 64);
  }

  predicate ValidRetained(m: Memory, sharedMemoryBytes: int) {
    && m.totalBytes >= 0 && m.availableBytes >= 0 && m.entryCount >= 0 && m.entryBytes >= 0
    && m.totalBytes == sharedMemoryBytes && m.availableBytes <= m.totalBytes && IsHexDigest(m.entryDigest)
    && m.semaphores.Some?
    && var s := m.semaphores.value;
    && s.headerCount >= 0 && s.objectCount >= 0 && s.pairCount >= 0
    && s.pairedEntryCount >= 0 && s.unpairedEntryCount >= 0 && s.otherEntryCount >= 0
    && IsHexDigest(s.pairDigest) && IsHexDigest(s.semaphoreDigest)
    && IsHexDigest(s.unpairedDigest) && IsHexDigest(s.otherDigest)
    && s.pairedEntryCount == s.pairCount * 2
    && s.headerCount + s.objectCount == s.pairedEntryCount + s.unpairedEntryCount
    && m.entryCount == s.pairedEntryCount + s.unpairedEntryCount + s.otherEntryCount
    && s.fullyPairedAndExclusive ==
         (s.pairCount > 0 && s.headerCount == s.pairCount && s.objectCount == s.pairCount
          && s.unpairedEntryCount == 0 && s.otherEntryCount == 0 && s.pairedEntryCount == m.entryCount)
  }

  lemma {:induction false} IdsBounded(entries: seq<Entry>, kind: Kind)
    ensures |Ids(entries, kind)| <= Count(entries, kind)
  {
    if entries == [] {
      assert Ids(entries, kind) == {};
    } else {
      var init, e := entries[..|entries| - 1], entries[|entries| - 1];
      assert entries == init + [e];
      IdsBounded(init, kind);
    }
  }

  lemma SubsetSize<T>(a: set<T>, b: set<T>)
    requires a <= b
    ensures |a| <= |b|
    ensures |a| == |b| ==> a == b
  {
    assert b == a + (b - a);
  }

  /** Producer and validator agree: every listing's summary satisfies every count
      equation, and its exclusivity flag is the one the validator computes. */
  lemma SummaryRevalidates(entries: seq<Entry>, available: int, digest: Digest)
    requires 0 <= available <= SHARED_MEMORY_BYTES && forall c :: IsHexDigest(digest(c))
    ensures ValidRetained(MemoryOf(entries, SHARED_MEMORY_BYTES, available, digest), SHARED_MEMORY_BYTES)
  {
    IdsBounded(entries, Header);
    IdsBounded(entries, Object);
    SubsetSize(Paired(entries), Ids(entries, Header));
    SubsetSize(Paired(entries), Ids(entries, Object));
    RowsLength(entries);
  }

  /** An accepted summary accounts for every entry, and its flag says that all entries
      form pairs. */
  lemma RetainedMeans(m: Memory, bytes: int)
    requires ValidRetained(m, bytes)
    ensures var s := m.semaphores.value;
            && 0 <= m.availableBytes <= m.totalBytes == bytes && m.entryBytes >= 0
            && m.entryCount == s.headerCount + s.objectCount + s.otherEntryCount
            && 0 <= 2 * s.pairCount <= s.headerCount + s.objectCount && s.headerCount >= 0 && s.objectCount >= 0
            && s.otherEntryCount >= 0
            && (s.fullyPairedAndExclusive <==> 0 < m.entryCount == 2 * s.headerCount == 2 * s.objectCount == 2 * s.pairCount)
    ensures var s := m.semaphores.value;
            forall d | d in {m.entryDigest, s.pairDigest, s.semaphoreDigest, s.unpairedDigest, s.otherDigest} :: IsHexDigest(d)
  {
  }

  /** No single count of an accepted summary, nor its flag, can be changed. */
  lemma RetainedIsRigid(m: Memory, bytes: int, v: int)
    requires ValidRetained(m, bytes)
    ensures var s := m.semaphores.value;
            && (ValidRetained(m.(totalBytes := v), bytes) ==> v == m.totalBytes)
            && (ValidRetained(m.(entryCount := v), bytes) ==> v == m.entryCount)
            && (ValidRetained(m.(semaphores := Some(s.(headerCount := v))), bytes) ==> v == s.headerCount)
            && (ValidRetained(m.(semaphores := Some(s.(objectCount := v))), bytes) ==> v == s.objectCount)
            && (ValidRetained(m.(semaphores := Some(s.(pairCount := v))), bytes) ==> v == s.pairCount)
            && (ValidRetained(m.(semaphores := Some(s.(pairedEntryCount := v))), bytes) ==> v == s.pairedEntryCount)
            && (ValidRetained(m.(semaphores := Some(s.(unpairedEntryCount := v))), bytes) ==> v == s.unpairedEntryCount)
            && (ValidRetained(m.(semaphores := Some(s.(otherEntryCount := v))), bytes) ==> v == s.otherEntryCount)
            && !ValidRetained(m.(semaphores := Some(s.(fullyPairedAndExclusive := !s.fullyPairedAndExclusive))), bytes)
  {
  }

  // ----- what the summary says of the listing -----

  /** The entry is the semaphore of this kind of some pair. */
  ghost predicate NamedFor(e: Entry, kind: Kind, id: string) {
    IsPairId(id) && e.name == "sem." + (if kind == Header then "hdr" else "obj") + id
  }

  ghost predicate SemaphoreOf(e: Entry, kind: Kind) { exists id :: NamedFor(e, kind, id) }

  lemma KindIsName(e: Entry, kind: Kind)
    ensures IsKind(e, kind) <==> SemaphoreOf(e, kind)
    ensures forall id :: ParseName(e.name) == Some((kind, id)) <==> NamedFor(e, kind, id)
  {
    forall id ensures ParseName(e.name) == Some((kind, id)) <==> NamedFor(e, kind, id) {
      if NamedFor(e, kind, id) { ParseSemaphoreName(kind, id); }
    }
    if IsKind(e, kind) { assert NamedFor(e, kind, ParseName(e.name).value.1); }
  }

  /** The positions of the semaphores of one kind. */
  ghost function Positions(entries: seq<Entry>, kind: Kind): set<nat> {
    set i: nat | i < |entries| && SemaphoreOf(entries[i], kind)
  }

  lemma {:induction false} CountIsPositions(entries: seq<Entry>, kind: Kind)
    ensures Count(entries, kind) == |Positions(entries, kind)|
  {
    if entries == [] {
      assert Positions(entries, kind) == {};
    } else {
      var n := |entries| - 1;
      CountIsPositions(entries[..n], kind);
      KindIsName(entries[n], kind);
      PositionsStep(entries[..n], entries[n], kind);
      assert entries == entries[..n] + [entries[n]];
    }
  }

  lemma PositionsStep(init: seq<Entry>, last: Entry, kind: Kind)
    ensures |Positions(init + [last], kind)| == |Positions(init, kind)| + if SemaphoreOf(last, kind) then 1 else 0
  {
    var more := init + [last];
    var before, now := Positions(init, kind), Positions(more, kind);
    assert more[|init|] == last;
    forall i: nat ensures i in now <==> i in before || (i == |init| && SemaphoreOf(last, kind)) {
      if i < |init| { assert more[i] == init[i]; }
    }
    assert now == before + if SemaphoreOf(last, kind) then {|init|} else {};
  }

  /** The pairs: identifiers with a header and an object in the listing. */
  ghost predicate ArePairs(pairs: set<string>, entries: seq<Entry>) {
    forall id :: id in pairs <==>
      (exists e | e in entries :: NamedFor(e, Header, id)) && (exists e | e in entries :: NamedFor(e, Object, id))
  }

  lemma IdsAreNamed(entries: seq<Entry>, kind: Kind, id: string)
    ensures id in Ids(entries, kind) <==> exists e | e in entries :: NamedFor(e, kind, id)
  {
    IdsMember(entries, kind, id);
    forall e: Entry ensures ParseName(e.name) == Some((kind, id)) <==> NamedFor(e, kind, id) { KindIsName(e, kind); }
  }

  lemma PairsAre(entries: seq<Entry>)
    ensures ArePairs(Paired(entries), entries)
  {
    forall id ensures id in Paired(entries) <==>
      (exists e | e in entries :: NamedFor(e, Header, id)) && (exists e | e in entries :: NamedFor(e, Object, id))
    {
      IdsAreNamed(entries, Header, id);
      IdsAreNamed(entries, Object, id);
    }
  }

  /** Every count of the summary, in terms of the names listed. */
  lemma SummaryCounts(entries: seq<Entry>, total: int, available: int, digest: Digest)
    ensures var m := MemoryOf(entries, total, available, digest);
            && m.totalBytes == total && m.availableBytes == available && m.entryCount == |entries| && m.semaphores.Some?
            && var s := m.semaphores.value;
            && s.headerCount == |Positions(entries, Header)| && s.objectCount == |Positions(entries, Object)|
            && s.headerCount + s.objectCount + s.otherEntryCount == |entries|
            && s.pairedEntryCount == s.pairCount + s.pairCount
            && s.unpairedEntryCount == |entries| - s.otherEntryCount - s.pairedEntryCount
  {
    CountIsPositions(entries, Header);
    CountIsPositions(entries, Object);
    RowsLength(entries);
  }

  /** Its pairs, and what each digest is taken of. */
  lemma SummaryMeans(entries: seq<Entry>, total: int, available: int, digest: Digest)
    ensures var m := MemoryOf(entries, total, available, digest);
            && m.semaphores.Some? && m.entryDigest == digest(EntryRows(multiset(entries)))
            && var s := m.semaphores.value;
            && (exists pairs :: ArePairs(pairs, entries) && s.pairCount == |pairs| && s.pairDigest == digest(PairIds(pairs)))
            && s.semaphoreDigest == digest(SemaphoreRows(multiset(Rows(entries))))
            && s.unpairedDigest == digest(UnpairedRows(Unpaired(entries)))
            && s.otherDigest == digest(EntryRows(multiset(Others(entries))))
  {
    PairsAre(entries);
  }

  // ----- what the exclusivity flag means -----

  ghost predicate DistinctNames(entries: seq<Entry>) {
    forall a, b | 0 <= a < b < |entries| :: entries[a].name != entries[b].name
  }

  function Other(kind: Kind): Kind { if kind.Header? then Object else Header }

  /** Every entry is one half of a pair whose other half is listed too. */
  ghost predicate AllPaired(entries: seq<Entry>) {
    forall e | e in entries ::
      ParseName(e.name).Some? && ParseName(e.name).value.1 in Ids(entries, Other(ParseName(e.name).value.0))
  }

  lemma {:induction false} IdsMember(entries: seq<Entry>, kind: Kind, id: string)
    ensures id in Ids(entries, kind) <==> exists e :: e in entries && ParseName(e.name) == Some((kind, id))
  {
    if entries != [] {
      var init, e := entries[..|entries| - 1], entries[|entries| - 1];
      assert entries == init + [e];
      IdsMember(init, kind, id);
    }
  }

  lemma {:induction false} IdsCounted(entries: seq<Entry>, kind: Kind)
    requires DistinctNames(entries)
    ensures |Ids(entries, kind)| == Count(entries, kind)
  {
    if entries == [] {
      assert Ids(entries, kind) == {};
    } else {
      var init, e := entries[..|entries| - 1], entries[|entries| - 1];
      assert entries == init + [e];
      IdsCounted(init, kind);
      if IsKind(e, kind) { IdsMember(init, kind, ParseName(e.name).value.1); }
    }
  }

  lemma {:induction false} OthersAre(entries: seq<Entry>)
    ensures Others(entries) == [] <==> forall e | e in entries :: ParseName(e.name).Some?
  {
    if entries != [] {
      var init, e := entries[..|entries| - 1], entries[|entries| - 1];
      assert entries == init + [e];
      OthersAre(init);
    }
  }

  lemma AllPairedMeans(entries: seq<Entry>)
    ensures AllPaired(entries) <==> Others(entries) == [] && Ids(entries, Header) == Ids(entries, Object)
  {
    var h, o := Ids(entries, Header), Ids(entries, Object);
    OthersAre(entries);
    forall id ensures id in h <==> exists e :: e in entries && ParseName(e.name) == Some((Header, id)) {
      IdsMember(entries, Header, id);
    }
    forall id ensures id in o <==> exists e :: e in entries && ParseName(e.name) == Some((Object, id)) {
      IdsMember(entries, Object, id);
    }
    assert AllPaired(entries) ==> h == o;
  }

  /** The flag is set exactly when the directory is not empty and holds nothing
      but complete semaphore pairs. */
  lemma FlagMeansPairs(entries: seq<Entry>, digest: Digest)
    requires DistinctNames(entries)
    ensures SemaphoresOf(entries, digest).fullyPairedAndExclusive <==> entries != [] && AllPaired(entries)
  {
    var h, o, pairs := Ids(entries, Header), Ids(entries, Object), Paired(entries);
    AllPairedMeans(entries);
    IdsCounted(entries, Header);
    IdsCounted(entries, Object);
    RowsLength(entries);
    SubsetSize(pairs, h);
    SubsetSize(pairs, o);
    assert h == o <==> pairs == h && pairs == o;
    assert pairs == {} <==> |pairs| == 0;
  }
}
