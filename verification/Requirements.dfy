/** scripts/audit_runtime_dependencies.py: the exported requirements, read line by
    line, and the comparison with the locked component list. */
module Requirements {
  import opened Text

  // ----- lines -----

  function StripLeft(s: string): string {
    if s != "" && Space(s[0]) then StripLeft(s[1..]) else s
  }

  function StripRight(s: string): string {
    if s != "" && Space(s[|s| - 1]) then StripRight(s[..|s| - 1]) else s
  }

  function Strip(s: string): string { StripRight(StripLeft(s)) }

  function WithoutContinuation(s: string): string {
    if s != "" && s[|s| - 1] == '\\' then s[..|s| - 1] else s
  }

  /** Blank lines and comments, indented or not. */
  predicate Skipped(line: string) { Strip(line) == "" || Strip(line)[0] == '#' }

  predicate IsHeader(line: string) { !Skipped(line) && line != "" && !Space(line[0]) }

  predicate IsHash(line: string) { !Skipped(line) && line != "" && Space(line[0]) && "--hash=" <= Strip(line) }

  function RequirementText(line: string): string { Strip(WithoutContinuation(Strip(line))) }

  predicate Blank(s: string) { forall i | 0 <= i < |s| :: Space(s[i]) }

  lemma {:induction false} StripLeftMeans(s: string) returns (lead: string)
    ensures s == lead + StripLeft(s) && Blank(lead) && (StripLeft(s) == "" || !Space(StripLeft(s)[0]))
  {
    lead := "";
    if s != "" && Space(s[0]) {
      lead := StripLeftMeans(s[1..]);
      lead := [s[0]] + lead;
      assert s == [s[0]] + s[1..];
    }
  }

  lemma {:induction false} StripRightMeans(s: string) returns (trail: string)
    ensures s == StripRight(s) + trail && Blank(trail) && (StripRight(s) == "" || !Space(Last(StripRight(s))))
  {
    trail := "";
    if s != "" && Space(s[|s| - 1]) {
      var shorter := StripRightMeans(Init(s));
      BlankAppend(StripRight(s), shorter, Last(s));
      trail := shorter + [Last(s)];
      assert s == Init(s) + [Last(s)];
    }
  }

  lemma BlankAppend(front: string, blanks: string, c: char)
    requires Blank(blanks) && Space(c)
    ensures Blank(blanks + [c]) && front + blanks + [c] == front + (blanks + [c])
  {
  }

  /** Stripping takes white space off both ends, and all of it. */
  lemma StripMeans(s: string) returns (lead: string, trail: string)
    ensures s == lead + Strip(s) + trail && Blank(lead) && Blank(trail)
    ensures Strip(s) == "" || (!Space(Strip(s)[0]) && !Space(Last(Strip(s))))
  {
    lead := StripLeftMeans(s);
    trail := StripRightMeans(StripLeft(s));
    if Strip(s) != "" { assert StripLeft(s)[0] == Strip(s)[0]; }
  }

  /** A line is skipped exactly if it is blank, or a number sign is the first character
      that is no white space. */
  lemma SkippedMeans(line: string)
    ensures Skipped(line) <==>
              Blank(line) || exists k | 0 <= k < |line| :: line[k] == '#' && Blank(line[..k])
  {
    var lead, trail := StripMeans(line);
    var middle := Strip(line);
    if middle == "" {
      assert line == lead + trail;
    } else {
      var n := |lead|;
      assert line[..n] == lead && line[n] == middle[0];
      forall k | 0 <= k < |line| && k != n ensures Space(line[k]) || !Blank(line[..k]) {
        if k < n { assert lead[k] == line[k]; } else { assert line[..k][n] == line[n]; }
      }
    }
  }

  /** One backslash at the end continues the line. */
  lemma ContinuationMeans(s: string)
    ensures WithoutContinuation(s + "\\") == s
    ensures s == "" || Last(s) != '\\' ==> WithoutContinuation(s) == s
  {
  }

  // ----- what one block means -----

  datatype Specifier = Specifier(operator: string, version: string)

  datatype Requirement = Requirement(name: string, url: Option<string>, specifiers: seq<Specifier>)

  datatype ExportError = InvalidRequirement | NotPinned | MissingHash | Empty | MissingRoots | ProjectIncluded | AuditorIncluded

  /** A package and its version. */
  datatype Pin = Pin(name: string, version: string)

  datatype Grammar = Grammar(parse: string -> Option<Requirement>, canonical: string -> string)

  predicate Exact(r: Requirement) {
    && r.url.None? && |r.specifiers| == 1 && r.specifiers[0].operator == "=="
    && !(|r.specifiers[0].version| >= 2 && r.specifiers[0].version[|r.specifiers[0].version| - 2..] == ".*")
  }

  function PinOf(g: Grammar, text: string, hashed: bool): Result<Pin, ExportError> {
    match g.parse(text)
    case None => Failure(InvalidRequirement)
    case Some(r) =>
      if !Exact(r) then Failure(NotPinned)
      else if !hashed then Failure(MissingHash)
      else Success(Pin(g.canonical(r.name), r.specifiers[0].version))
  }

  /** The text is a requirement without a link and with one specifier, which pins it to a
      version that is no pattern. */
  ghost predicate PinnedTo(g: Grammar, text: string, p: Pin) {
    && g.parse(text).Some?
    && var r := g.parse(text).value;
    && r.url == None && r.specifiers == [Specifier("==", p.version)] && p.name == g.canonical(r.name)
    && !exists front: string :: p.version == front + ".*"
  }

  /** Line h begins a block that has a hash before line n: its own, or that of an
      indented line with no header between. */
  ghost predicate Hashed(lines: seq<string>, h: nat, n: nat)
    requires h < |lines| && n <= |lines|
  {
    Contains(Strip(lines[h]), "--hash=") ||
    exists j | h < j < n :: IsHash(lines[j]) && NoHeader(lines, h + 1, j)
  }

  predicate NoHeader(lines: seq<string>, from: nat, to: nat)
    requires to <= |lines|
  {
    forall k | from <= k < to :: !IsHeader(lines[k])
  }

  /** What the block that begins at line h exports. */
  ghost function BlockPin(g: Grammar, lines: seq<string>, h: nat): Result<Pin, ExportError>
    requires h < |lines|
  {
    PinOf(g, RequirementText(lines[h]), Hashed(lines, h, |lines|))
  }

  /** What each line exports: nothing, or the block it begins. */
  type Blocks = seq<Option<Result<Pin, ExportError>>>

  ghost function BlocksOf(g: Grammar, lines: seq<string>, n: nat): (blocks: Blocks)
    requires n <= |lines|
    ensures |blocks| == n
  {
    if n == 0 then [] else BlocksOf(g, lines, n - 1) + [if IsHeader(lines[n - 1]) then Some(BlockPin(g, lines, n - 1)) else None]
  }

  lemma {:induction false} BlockAt(g: Grammar, lines: seq<string>, n: nat, h: nat)
    requires h < n <= |lines|
    ensures BlocksOf(g, lines, n)[h] == if IsHeader(lines[h]) then Some(BlockPin(g, lines, h)) else None
  {
    if h < n - 1 { BlockAt(g, lines, n - 1, h); }
  }

  /** The packages are those of the blocks that begin before line n, all accepted. */
  ghost predicate Exports(blocks: Blocks, n: nat, packages: set<Pin>)
    requires n <= |blocks|
  {
    && (forall h | 0 <= h < n && blocks[h].Some? :: blocks[h].value.Success?)
    && (forall p :: p in packages <==> exists h | 0 <= h < n :: blocks[h] == Some(Success(p)))
  }

  /** The block that begins at line h is the first one refused. */
  ghost predicate FirstRefused(blocks: Blocks, h: nat) {
    && h < |blocks| && blocks[h].Some? && blocks[h].value.Failure?
    && forall k | 0 <= k < h && blocks[k].Some? :: blocks[k].value.Success?
  }

  lemma HashedStays(lines: seq<string>, h: nat, n: nat)
    requires h < n <= |lines| && (n == |lines| || IsHeader(lines[n]))
    ensures Hashed(lines, h, n) == Hashed(lines, h, |lines|)
  {
  }

  // ----- the line loop -----

  /** The block of line h is still open before line n. */
  ghost predicate Open(lines: seq<string>, h: nat, n: nat, text: string, hasHash: bool) {
    && h < n <= |lines| && IsHeader(lines[h]) && NoHeader(lines, h + 1, n)
    && text == RequirementText(lines[h]) && hasHash == Hashed(lines, h, n)
  }

  /** A line that is no header leaves the block open and may give it its hash. */
  lemma OpenGrows(lines: seq<string>, h: nat, n: nat, text: string, hasHash: bool)
    requires Open(lines, h, n, text, hasHash) && n < |lines| && !IsHeader(lines[n])
    ensures Open(lines, h, n + 1, text, hasHash || IsHash(lines[n]))
  {
    assert NoHeader(lines, h + 1, n + 1);
    if IsHash(lines[n]) { assert NoHeader(lines, h + 1, n); }
  }

  lemma OpenStarts(lines: seq<string>, n: nat)
    requires n < |lines| && IsHeader(lines[n])
    ensures Open(lines, n, n + 1, RequirementText(lines[n]), Contains(Strip(lines[n]), "--hash="))
  {
  }

  lemma ExportsGrow(blocks: Blocks, n: nat, packages: set<Pin>)
    requires n < |blocks| && blocks[n].None? && Exports(blocks, n, packages)
    ensures Exports(blocks, n + 1, packages)
  {
  }

  /** One more block, and no other up to line n. */
  lemma ExportsExtend(blocks: Blocks, h: nat, n: nat, packages: set<Pin>, pin: Pin)
    requires h < n <= |blocks| && Exports(blocks, h, packages) && blocks[h] == Some(Success(pin))
    requires forall k | h < k < n :: blocks[k].None?
    ensures Exports(blocks, n, packages + {pin})
  {
  }

  lemma NoBlocks(g: Grammar, lines: seq<string>, h: nat, n: nat)
    requires h <= n <= |lines| && NoHeader(lines, h, n)
    ensures forall k | h <= k < n :: BlocksOf(g, lines, |lines|)[k].None?
  {
    forall k | h <= k < n ensures BlocksOf(g, lines, |lines|)[k].None? { BlockAt(g, lines, |lines|, k); }
  }

  class ExportReader {
    const g: Grammar
    ghost const lines: seq<string>
    ghost const blocks: Blocks
    var packages: set<Pin>
    var requirement: Option<string>
    var hasHash: bool
    ghost var header: nat

    constructor (g: Grammar, ghost lines: seq<string>)
      ensures this.g == g && this.lines == lines && Reading(0)
    {
      this.g, this.lines, blocks := g, lines, BlocksOf(g, lines, |lines|);
      packages, requirement, hasHash, header := {}, None, false, 0;
    }

    /** The state before line n: the blocks before the open one are exported; the
        open one has the text and the hash seen so far. */
    ghost predicate Reading(n: nat)
      reads this
    {
      && n <= |lines| && blocks == BlocksOf(g, lines, |lines|)
      && if requirement.None? then Exports(blocks, n, packages)
         else Open(lines, header, n, requirement.value, hasHash) && Exports(blocks, header, packages)
    }

    /** Close the open block, at the end or at the next header. */
    method FinishRequirement(ghost n: nat) returns (error: Option<ExportError>)
      requires Reading(n) && (n == |lines| || IsHeader(lines[n]))
      modifies this
      ensures error.None? ==> requirement.None? && Reading(n) && hasHash == (old(requirement).None? && old(hasHash))
      ensures error.Some? ==> exists h: nat :: FirstRefused(blocks, h) && blocks[h] == Some(Failure(error.value))
    {
      if requirement.None? { return None; }
      HashedStays(lines, header, n);
      BlockAt(g, lines, |lines|, header);
      NoBlocks(g, lines, header + 1, n);
      var pin := PinOf(g, requirement.value, hasHash);
      assert blocks[header] == Some(pin);
      if pin.Failure? {
        assert FirstRefused(blocks, header);
        return Some(pin.error);
      }
      ExportsExtend(blocks, header, n, packages, pin.value);
      packages := packages + {pin.value};
      requirement, hasHash := None, false;
      error := None;
    }

    method TakeLine(line: string, ghost n: nat) returns (error: Option<ExportError>)
      requires Reading(n) && n < |lines| && line == lines[n]
      modifies this
      ensures error.None? ==> Reading(n + 1)
      ensures error.Some? ==> exists h: nat :: FirstRefused(blocks, h) && blocks[h] == Some(Failure(error.value))
    {
      error := None;
      var stripped := Strip(line);
      if Skipped(line) || Space(line[0]) {
        if requirement.Some? {
          OpenGrows(lines, header, n, requirement.value, hasHash);
          if !Skipped(line) && "--hash=" <= stripped { hasHash := true; }
        } else {
          BlockAt(g, lines, |lines|, n);
          ExportsGrow(blocks, n, packages);
        }
        return;
      }
      error := FinishRequirement(n);
      if error.Some? { return; }
      hasHash := Contains(stripped, "--hash=");
      requirement := Some(Strip(WithoutContinuation(stripped)));
      header := n;
      OpenStarts(lines, n);
    }
  }

  // ----- the blocks in terms of the lines -----

  ghost predicate Pinned(g: Grammar, text: string) { exists p :: PinnedTo(g, text, p) }

  /** Line h begins a block that is pinned exactly and hashed. */
  ghost predicate GoodBlock(g: Grammar, lines: seq<string>, h: nat)
    requires h < |lines|
  {
    Pinned(g, RequirementText(lines[h])) && Hashed(lines, h, |lines|)
  }

  /** Line h begins the first block that is not. */
  ghost predicate FirstBadBlock(g: Grammar, lines: seq<string>, h: nat) {
    && h < |lines| && IsHeader(lines[h]) && !GoodBlock(g, lines, h)
    && forall k | 0 <= k < h && IsHeader(lines[k]) :: GoodBlock(g, lines, k)
  }

  /** What is wrong with such a block: no parse before no pin before no hash. */
  ghost function Fault(g: Grammar, lines: seq<string>, h: nat): ExportError
    requires h < |lines|
  {
    if g.parse(RequirementText(lines[h])).None? then InvalidRequirement
    else if !Pinned(g, RequirementText(lines[h])) then NotPinned else MissingHash
  }

  lemma ExactMeans(r: Requirement)
    ensures Exact(r) <==>
              && r.url == None && |r.specifiers| == 1 && r.specifiers[0].operator == "=="
              && !exists front: string :: r.specifiers[0].version == front + ".*"
  {
    if |r.specifiers| == 1 {
      var v := r.specifiers[0].version;
      if |v| >= 2 && v[|v| - 2..] == ".*" { assert v == v[..|v| - 2] + ".*"; }
      forall front: string | v == front + ".*" ensures |v| >= 2 && v[|v| - 2..] == ".*" { assert |v| - 2 == |front|; }
    }
  }

  lemma PinMeans(g: Grammar, text: string, hashed: bool, p: Pin)
    ensures PinOf(g, text, hashed) == Success(p) <==> hashed && PinnedTo(g, text, p)
  {
    if g.parse(text).Some? {
      var r := g.parse(text).value;
      ExactMeans(r);
      if |r.specifiers| == 1 { assert r.specifiers == [Specifier(r.specifiers[0].operator, r.specifiers[0].version)]; }
    }
  }

  lemma BlockMeans(g: Grammar, lines: seq<string>, h: nat)
    requires h < |lines|
    ensures forall p :: BlockPin(g, lines, h) == Success(p) <==> Hashed(lines, h, |lines|) && PinnedTo(g, RequirementText(lines[h]), p)
    ensures BlockPin(g, lines, h).Success? <==> GoodBlock(g, lines, h)
    ensures !GoodBlock(g, lines, h) ==> BlockPin(g, lines, h) == Failure(Fault(g, lines, h))
  {
    var text, hashed := RequirementText(lines[h]), Hashed(lines, h, |lines|);
    forall p ensures PinOf(g, text, hashed) == Success(p) <==> hashed && PinnedTo(g, text, p) { PinMeans(g, text, hashed, p); }
    PinnedMeans(g, text);
  }

  lemma PinnedMeans(g: Grammar, text: string)
    ensures Pinned(g, text) <==> g.parse(text).Some? && Exact(g.parse(text).value)
  {
    if g.parse(text).Some? && Exact(g.parse(text).value) {
      var r := g.parse(text).value;
      PinMeans(g, text, true, Pin(g.canonical(r.name), r.specifiers[0].version));
    }
    if p :| PinnedTo(g, text, p) { PinMeans(g, text, true, p); }
  }

  /** The packages are the pins of the blocks, every one of them good. */
  ghost predicate ArePins(g: Grammar, lines: seq<string>, packages: set<Pin>) {
    && (forall h | 0 <= h < |lines| && IsHeader(lines[h]) :: GoodBlock(g, lines, h))
    && (forall p :: p in packages <==>
          exists h | 0 <= h < |lines| :: IsHeader(lines[h]) && PinnedTo(g, RequirementText(lines[h]), p))
  }

  lemma BlocksMean(g: Grammar, lines: seq<string>, h: nat)
    requires h < |lines|
    ensures var blocks := BlocksOf(g, lines, |lines|);
            && (blocks[h].Some? <==> IsHeader(lines[h]))
            && (blocks[h].Some? ==>
                  && (blocks[h].value.Success? <==> GoodBlock(g, lines, h))
                  && (!GoodBlock(g, lines, h) ==> blocks[h] == Some(Failure(Fault(g, lines, h)))))
            && forall p :: blocks[h] == Some(Success(p)) <==>
                 IsHeader(lines[h]) && Hashed(lines, h, |lines|) && PinnedTo(g, RequirementText(lines[h]), p)
  {
    BlockAt(g, lines, |lines|, h);
    BlockMeans(g, lines, h);
  }

  /** Exporting these packages means that they are the pins of the blocks. */
  lemma ExportsMean(g: Grammar, lines: seq<string>, packages: set<Pin>)
    ensures Exports(BlocksOf(g, lines, |lines|), |lines|, packages) <==> ArePins(g, lines, packages)
  {
    var blocks := BlocksOf(g, lines, |lines|);
    forall h | 0 <= h < |lines|
      ensures blocks[h].Some? <==> IsHeader(lines[h])
      ensures blocks[h].Some? ==> (blocks[h].value.Success? <==> GoodBlock(g, lines, h))
      ensures forall p :: blocks[h] == Some(Success(p)) <==>
                IsHeader(lines[h]) && Hashed(lines, h, |lines|) && PinnedTo(g, RequirementText(lines[h]), p)
    {
      BlocksMean(g, lines, h);
    }
  }

  lemma RefusedMeans(g: Grammar, lines: seq<string>, h: nat)
    ensures FirstRefused(BlocksOf(g, lines, |lines|), h) <==> FirstBadBlock(g, lines, h)
    ensures FirstBadBlock(g, lines, h) ==> BlocksOf(g, lines, |lines|)[h] == Some(Failure(Fault(g, lines, h)))
  {
    var blocks := BlocksOf(g, lines, |lines|);
    forall k | 0 <= k < |lines|
      ensures blocks[k].Some? <==> IsHeader(lines[k])
      ensures blocks[k].Some? ==> (blocks[k].value.Success? <==> GoodBlock(g, lines, k))
      ensures blocks[k].Some? && !GoodBlock(g, lines, k) ==> blocks[k] == Some(Failure(Fault(g, lines, k)))
    {
      BlocksMean(g, lines, k);
    }
  }

  // ----- the whole export -----

  ghost predicate HasName(packages: set<Pin>, name: string) {
    exists p | p in packages :: p.name == name
  }

  /** What the project requires of the exported packages. */
  ghost predicate Complete(g: Grammar, packages: set<Pin>, project: string, roots: set<string>) {
    && packages != {} && (forall root | root in roots :: HasName(packages, root)) && !HasName(packages, project)
    && (HasName(packages, g.canonical("pip-audit")) ==> g.canonical("pip-audit") in roots)
  }

  /** The packages, or the first thing that is wrong with their names. */
  ghost function NamesChecked(g: Grammar, packages: set<Pin>, project: string, roots: set<string>): Result<set<Pin>, ExportError> {
    if packages == {} then Failure(Empty)
    else if exists root | root in roots :: !HasName(packages, root) then Failure(MissingRoots)
    else if HasName(packages, project) then Failure(ProjectIncluded)
    else if HasName(packages, g.canonical("pip-audit")) && g.canonical("pip-audit") !in roots then Failure(AuditorIncluded)
    else Success(packages)
  }

  method NamesOf(packages: set<Pin>) returns (names: set<string>)
    ensures forall name :: name in names <==> HasName(packages, name)
  {
    names := set p | p in packages :: p.name;
  }

  /** The export is accepted exactly when every block is hashed and pinned exactly and
      the packages are complete; it yields the pins of the blocks and nothing else. */
  method ValidateExportedGraph(g: Grammar, lines: seq<string>, project: string, roots: set<string>)
    returns (r: Result<set<Pin>, ExportError>)
    ensures r.Success? <==> exists packages :: ArePins(g, lines, packages) && Complete(g, packages, project, roots)
    ensures r.Success? ==> ArePins(g, lines, r.value)
    ensures forall h: nat | FirstBadBlock(g, lines, h) :: r == Failure(Fault(g, lines, h))
    ensures forall packages | ArePins(g, lines, packages) :: r == NamesChecked(g, packages, project, roots)
  {
    forall packages ensures Exports(BlocksOf(g, lines, |lines|), |lines|, packages) <==> ArePins(g, lines, packages) {
      ExportsMean(g, lines, packages);
    }
    forall h: nat
      ensures FirstRefused(BlocksOf(g, lines, |lines|), h) <==> FirstBadBlock(g, lines, h)
      ensures FirstBadBlock(g, lines, h) ==> BlocksOf(g, lines, |lines|)[h] == Some(Failure(Fault(g, lines, h)))
    {
      RefusedMeans(g, lines, h);
    }
    var reader := new ExportReader(g, lines);
    for n := 0 to |lines|
      invariant reader.g == g && reader.lines == lines && reader.Reading(n)
    {
      var error := reader.TakeLine(lines[n], n);
      if error.Some? {
        RefusedOnce(reader.blocks);
        return Failure(error.value);
      }
    }
    var error := reader.FinishRequirement(|lines|);
    if error.Some? {
      RefusedOnce(reader.blocks);
      return Failure(error.value);
    }
    ExportsOnce(reader.blocks, reader.packages);
    var names := NamesOf(reader.packages);
    r := CheckNames(g, reader.packages, names, project, roots);
  }

  method CheckNames(g: Grammar, packages: set<Pin>, names: set<string>, project: string, roots: set<string>)
    returns (r: Result<set<Pin>, ExportError>)
    requires forall name :: name in names <==> HasName(packages, name)
    ensures r.Success? <==> Complete(g, packages, project, roots)
    ensures r == NamesChecked(g, packages, project, roots)
  {
    if names == {} {
      assert forall p | p in packages :: p.name in names;
      return Failure(Empty);
    }
    if exists root :: root in roots && root !in names { return Failure(MissingRoots); }
    if project in names { return Failure(ProjectIncluded); }
    var auditor := g.canonical("pip-audit");
    if auditor !in roots && auditor in names { return Failure(AuditorIncluded); }
    r := Success(packages);
  }

  /** A refused block leaves no set of packages; there is one first refused block. */
  lemma RefusedOnce(blocks: Blocks)
    ensures forall h: nat, packages | FirstRefused(blocks, h) :: !Exports(blocks, |blocks|, packages)
    ensures forall h: nat, k: nat | FirstRefused(blocks, h) && FirstRefused(blocks, k) :: h == k
  {
  }

  lemma ExportsOnce(blocks: Blocks, packages: set<Pin>)
    requires Exports(blocks, |blocks|, packages)
    ensures forall other | Exports(blocks, |blocks|, other) :: other == packages
    ensures forall h: nat :: !FirstRefused(blocks, h)
  {
    forall other | Exports(blocks, |blocks|, other) ensures other == packages {
      assert forall p :: p in other <==> p in packages;
    }
  }

  /** The exported packages are the pins of the blocks. */
  lemma PackagesAreBlocks(g: Grammar, lines: seq<string>, packages: set<Pin>, p: Pin)
    requires Exports(BlocksOf(g, lines, |lines|), |lines|, packages)
    ensures p in packages <==> exists h | 0 <= h < |lines| ::
              IsHeader(lines[h]) && Hashed(lines, h, |lines|) && PinnedTo(g, RequirementText(lines[h]), p)
  {
    ExportsMean(g, lines, packages);
    forall h | 0 <= h < |lines| && IsHeader(lines[h]) ensures Hashed(lines, h, |lines|) { assert GoodBlock(g, lines, h); }
  }

  // ----- the component list -----

  datatype Component = Invalid | Component(name: Option<string>, version: Option<string>)

  datatype SbomError = NoComponents | InvalidComponent | InvalidIdentity | Disagree

  predicate Identified(c: Component) {
    c.Component? && c.name.Some? && c.name.value != "" && c.version.Some? && c.version.value != ""
  }

  function PinOfComponent(g: Grammar, c: Component): Pin
    requires Identified(c)
  {
    Pin(g.canonical(c.name.value), c.version.value)
  }

  /** The component has a name and a version, and this is its pin. */
  predicate Names(g: Grammar, c: Component, p: Pin) {
    && c.Component? && c.name.Some? && |c.name.value| > 0 && c.version == Some(p.version) && |p.version| > 0
    && p.name == g.canonical(c.name.value)
  }

  ghost predicate Listed(g: Grammar, c: Component, packages: set<Pin>) {
    exists p | p in packages :: Names(g, c, p)
  }

  /** Both exports name the same packages: each pin has a component and each component
      has a pin. */
  ghost predicate SamePackages(g: Grammar, components: seq<Component>, packages: set<Pin>) {
    && (forall i | 0 <= i < |components| :: Listed(g, components[i], packages))
    && (forall p | p in packages :: exists i | 0 <= i < |components| :: Names(g, components[i], p))
  }

  lemma NamesMeans(g: Grammar, c: Component)
    ensures Identified(c) <==> exists p :: Names(g, c, p)
    ensures forall p :: Names(g, c, p) <==> Identified(c) && PinOfComponent(g, c) == p
  {
    if Identified(c) { assert Names(g, c, PinOfComponent(g, c)); }
  }

  /** The first component that is no object, or lacks a name or a version. */
  ghost predicate FirstUnnamed(g: Grammar, components: seq<Component>, i: nat) {
    && i < |components| && !(exists p :: Names(g, components[i], p))
    && forall k | 0 <= k < i :: exists p :: Names(g, components[k], p)
  }

  method ValidateSbomGraph(g: Grammar, components: Option<seq<Component>>, exported: set<Pin>) returns (error: Option<SbomError>)
    ensures error == None <==> components.Some? && components.value != [] && SamePackages(g, components.value, exported)
    ensures error == Some(NoComponents) <==> components.None? || components.value == []
    ensures components.Some? ==> forall i: nat | FirstUnnamed(g, components.value, i) ::
              error == Some(if components.value[i] == Invalid then InvalidComponent else InvalidIdentity)
    ensures error == Some(Disagree) ==>
              components.Some? && !SamePackages(g, components.value, exported) && forall i: nat :: !FirstUnnamed(g, components.value, i)
  {
    if components.None? || components.value == [] { return Some(NoComponents); }
    var all := components.value;
    forall i | 0 <= i < |all|
      ensures Identified(all[i]) <==> exists p :: Names(g, all[i], p)
      ensures forall p :: Names(g, all[i], p) <==> Identified(all[i]) && PinOfComponent(g, all[i]) == p
    {
      NamesMeans(g, all[i]);
    }
    var packages: set<Pin> := {};
    for i := 0 to |all|
      invariant forall k | 0 <= k < i :: Identified(all[k])
      invariant forall p :: p in packages <==> exists k | 0 <= k < i :: Names(g, all[k], p)
    {
      if all[i] == Invalid { return Some(InvalidComponent); }
      if !Identified(all[i]) { return Some(InvalidIdentity); }
      packages := packages + {PinOfComponent(g, all[i])};
    }
    SameSets(g, all, packages, exported);
    error := if packages != exported then Some(Disagree) else None;
  }

  lemma SameSets(g: Grammar, components: seq<Component>, packages: set<Pin>, exported: set<Pin>)
    requires forall k | 0 <= k < |components| :: Identified(components[k])
    requires forall k, p | 0 <= k < |components| :: Names(g, components[k], p) <==> PinOfComponent(g, components[k]) == p
    requires forall p :: p in packages <==> exists k | 0 <= k < |components| :: Names(g, components[k], p)
    ensures packages == exported <==> SamePackages(g, components, exported)
  {
    forall k | 0 <= k < |components|
      ensures PinOfComponent(g, components[k]) in packages
      ensures Listed(g, components[k], exported) <==> PinOfComponent(g, components[k]) in exported
    {
      var p := PinOfComponent(g, components[k]);
      assert Names(g, components[k], p);
    }
    if SamePackages(g, components, exported) {
      forall p ensures p in packages <==> p in exported {
        if p in packages {
          var k :| 0 <= k < |components| && Names(g, components[k], p);
          assert Listed(g, components[k], exported);
        }
      }
      assert packages == exported;
    }
  }
}
